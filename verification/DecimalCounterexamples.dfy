/** Texts and encodings on which the code does not do what is expected, one or one family for each exception. */
module DecimalCounterexamples {
  import opened Common
  import opened DecimalDigits
  import opened Decimal128
  import opened DecimalPrint
  import opened DecimalSyntax
  import opened DecimalRoundTrip
  import opened DecimalExact
  import opened DecimalWindow
  import opened DecimalAcceptance

  lemma ParseUnsigned(whole: seq<Digit>, fraction: seq<Digit>, point: bool)
    requires whole != [] && (!point ==> fraction == [])
    ensures Parse(Region(whole, fraction, point), -1) == Numeral(false, false, whole + fraction, point, |fraction|, 0)
  {
    hide Parse, Region;
    var text := Region(whole, fraction, point);
    assert Sign(false) + text + Tail(None) == text;
    ParseLayout(text, false, whole, fraction, point, None);
  }

  lemma FinishClampedOne(text: string, n: Syntax)
    requires n.Numeral? && !n.negative && n.exponent == 0 && n.fraction > 0x4000 && Strip(n.digits) == [1]
    ensures Finish(text, n) == Some(Finite(false, 1, EXPONENT_MIN))
  {
    NothingToNormalise([1], EXPONENT_MIN, text, n.Offset());
    WholeCoefficient([1]);
    assert [1][..1] == [1] && [1][..0] == [];
    assert Value([1]) == 1;
  }

  lemma StripClampedOne(zeros: nat)
    ensures Strip([0] + (Zeros(zeros) + [1])) == [1]
  {
    LeadingZeros(zeros, [1], 1);
  }

  /** A point, at least 2^14 zeros and a 1 is accepted as 10^-6176. */
  lemma LongFractionIsClamped(zeros: nat)
    requires 16384 <= zeros < 0x7ffe_0000
    ensures var text := Region([0], Zeros(zeros) + [1], true);
            var n := Parse(text, -1);
            && n.Numeral? && Clamped(n) && Meaning(text, -1) == Some(Finite(false, 1, -6176))
            && !Exact(Meaning(text, -1).value, n)
  {
    hide Parse, Region, Strip, Zeros, SameValue, Value, Finish, Shortest, Pow10;
    var fraction := Zeros(zeros) + [1];
    var text := Region([0], fraction, true);
    ParseUnsigned([0], fraction, true);
    StripClampedOne(zeros);
    var n := Numeral(false, false, [0] + fraction, true, zeros + 1, 0);
    FinishClampedOne(text, n);
    ClampedIsWrong(text, n);
  }

  // ---- the end of the digit array ----

  /** In terms of the text: the digits and the exponent of the last one add up to 6146. */
  lemma ReadsPastDigitsWhen(n: Syntax)
    requires n.Numeral? && n.fraction < 0x7fff_0000 && -0x8000_0000 <= n.exponent < 0x8000_0000
    ensures ReadsPastDigits(n) <==>
              0 < |Strip(n.digits)| <= MAX_DIGITS && |Strip(n.digits)| + n.exponent - n.fraction == 6146
  {
  }

  lemma ScanOneE6145()
    ensures ScanEnd("1E6145", 0, 6) == 1 && "1E6145"[0..1] == "1"
    ensures Digits("1") == [1] && Fraction("1") == 0 && !TwoPoints("1")
  {
  }

  lemma ExponentOfOneE6145()
    ensures ReadInt("1E6145", 2) == Some((6145, 6))
  {
    assert SkipSpace("1E6145", 2) == 2 && RunEnd("1E6145", 2) == 6;
    assert "1E6145"[2..6] == "6145";
    DigitsOfText([6, 1, 4, 5]);
    SixOneFourFive();
    hide Digits, Text, Value, RunEnd, SkipSpace;
  }

  lemma ParseOneE6145()
    ensures Parse("1E6145", -1) == Numeral(false, false, [1], false, 0, 6145)
  {
    ScanOneE6145();
    ExponentOfOneE6145();
    hide ScanEnd, ReadInt, Digits, Fraction, TwoPoints, ParseSpecial;
  }

  lemma SixOneFourFive()
    ensures Text([6, 1, 4, 5]) == "6145" && Value([6, 1, 4, 5]) == 6145
  {
    assert [6, 1, 4, 5][..3] == [6, 1, 4] && [6, 1, 4][..2] == [6, 1] && [6, 1][..1] == [6] && [6][..0] == [];
    assert Text([6]) == "6" && Text([6, 1]) == "61" && Text([6, 1, 4]) == "614";
    assert Value([6]) == 6 && Value([6, 1]) == 61 && Value([6, 1, 4]) == 614;
  }

  /** Six characters are enough for the code to read the 35th of 34 digits. */
  lemma OneE6145ReadsPastDigits()
    ensures Parse("1E6145", -1).Numeral? && ReadsPastDigits(Parse("1E6145", -1))
  {
    ParseOneE6145();
    hide Parse;
    StripAt([1], 0);
    ReadsPastDigitsWhen(Parse("1E6145", -1));
  }

  // ---- digits that are not looked at ----

  const HIDDEN_DIGIT: seq<Digit> := [1] + Zeros(34) + [5]

  lemma HiddenDigitText(text: string)
    requires text == Region([0, 0] + HIDDEN_DIGIT, [], false)
    ensures |text| == 38 && text[37] == '5' && forall i :: 3 <= i < 37 ==> text[i] == '0'
  {
    var all := [0, 0] + HIDDEN_DIGIT;
    ZerosAreZero(34);
    TextIsDigits(all);
    assert text == Text(all);
    forall i | 3 <= i < 37 ensures text[i] == '0' {
      assert all[i] == Zeros(34)[i - 3];
    }
  }

  lemma HiddenDigitValue()
    ensures HIDDEN_DIGIT[0] != 0 && |HIDDEN_DIGIT| == 36
    ensures Value(HIDDEN_DIGIT) == Value(HIDDEN_DIGIT[..34]) * 100 + 5
  {
    ZerosAreZero(34);
    assert HIDDEN_DIGIT[34..] == [0, 5];
    assert [0, 5][..1] == [0] && [0][..0] == [];
    assert Value([0]) == 0 && Value([0, 5]) == 5 && Pow10(2) == 100;
    ValueAppend(HIDDEN_DIGIT[..34], HIDDEN_DIGIT[34..]);
    assert HIDDEN_DIGIT[..34] + HIDDEN_DIGIT[34..] == HIDDEN_DIGIT;
  }

  /** Any 36 digits behind two zeros, of which the 33rd to 35th are zero: the 36th is not looked at. */
  lemma FinishBlindly(text: string, n: Syntax, digits: seq<Digit>)
    requires n.Numeral? && n == Numeral(false, false, n.digits, false, 0, 0) && |n.digits| == 38
    requires digits == Strip(n.digits) && |digits| == 36
    requires |text| == 38 && text[34] == text[35] == text[36] == '0' && text[37] != '0'
    ensures Finish(text, n) == Some(Finite(false, Value(digits[..34]), 2))
  {
    DropsTwo(digits, text);
    WholeCoefficient(digits[..34]);
    LastIsSignificant(text, 2, 36);
  }

  lemma LastIsSignificant(text: string, base: nat, count: nat)
    requires count > 0 && At(text, base + count - 1) != '0'
    ensures Significant(text, base, count) == count
  {
  }

  lemma DropsTwo(digits: seq<Digit>, text: string)
    requires |digits| == 36 && |text| == 38 && text[34] == text[35] == '0'
    ensures Normalise(digits, 0, text, 0) == Fit(34, 0, 2)
  {
    assert forall p :: 34 <= p < 36 ==> At(text, p) == '0';
  }

  lemma FinishHiddenDigit(text: string, n: Syntax)
    requires n == Numeral(false, false, [0, 0] + HIDDEN_DIGIT, false, 0, 0)
    requires text == Region([0, 0] + HIDDEN_DIGIT, [], false)
    ensures Finish(text, n) == Some(Finite(false, Value(HIDDEN_DIGIT[..34]), 2))
    ensures Strip(n.digits) == HIDDEN_DIGIT
  {
    HiddenDigitText(text);
    HiddenDigitValue();
    StripAt(n.digits, 2);
    assert n.digits[2..] == HIDDEN_DIGIT;
    hide Region, HIDDEN_DIGIT, Value, Strip, Finish;
    FinishBlindly(text, n, HIDDEN_DIGIT);
  }

  /** With two leading zeros the check of the digits beyond the 34th looks two places too early. */
  lemma LeadingZerosHideADigit()
    ensures var text := Region([0, 0] + HIDDEN_DIGIT, [], false);
            var n := Parse(text, -1);
            && n.Numeral? && !DigitsInReach(n) && Meaning(text, -1).Some? && !Exact(Meaning(text, -1).value, n)
  {
    var text := Region([0, 0] + HIDDEN_DIGIT, [], false);
    var n := Numeral(false, false, [0, 0] + HIDDEN_DIGIT, false, 0, 0);
    ParseUnsigned([0, 0] + HIDDEN_DIGIT, [], false);
    assert [0, 0] + HIDDEN_DIGIT + [] == [0, 0] + HIDDEN_DIGIT;
    HiddenDigitValue();
    hide Region, HIDDEN_DIGIT, Value, Strip, Parse;
    FinishHiddenDigit(text, n);
    ValueOfStrip(n.digits);
    assert Pow10(2) == 100;
  }

  // ---- a text that is too long ----

  /** -10^34 times 10^-40, which stands for zero. */
  const MINUS_TEN_34: Bits := Bits(0xaff1_ed09_bead_87c0, 0x378d_8e64_0000_0000)

  lemma FieldsOfMinusTen34()
    ensures Negative(MINUS_TEN_34) && Combination(MINUS_TEN_34) == 11
    ensures RawCoefficient(MINUS_TEN_34) == TEN_34 && BiasedExponent(MINUS_TEN_34) == 6136
  {
  }

  lemma ShortestOfTen34()
    ensures Shortest(TEN_34) == [1] + Zeros(34)
  {
    var ds := [1] + Zeros(34);
    ZerosAreZero(34);
    ValueOfZeros(Zeros(34));
    ValuePrepend(1, Zeros(34));
    Pow10Of34();
    ShortestIsUnique(ds);
  }

  lemma FiveZeros()
    ensures Text(Zeros(5)) == "00000"
  {
    assert Zeros(5) == [0, 0, 0, 0, 0];
    assert [0, 0, 0, 0, 0][..4] == [0, 0, 0, 0] && [0, 0, 0, 0][..3] == [0, 0, 0] && [0, 0, 0][..2] == [0, 0];
    assert [0, 0][..1] == [0] && [0][..0] == [];
  }

  lemma FractionOfTen34(ds: seq<Digit>)
    requires |ds| == 35
    ensures Fractional(ds, -40) == "0." + "00000" + Text(ds)
  {
    FiveZeros();
    hide Text, Zeros;
    assert ds[0..] == ds;
  }

  /** Its text fills the documented buffer, so that the terminator is written behind it. */
  lemma MinusTen34Overruns()
    ensures Overruns(MINUS_TEN_34) && Decode(MINUS_TEN_34) == Finite(true, 0, -40)
    ensures Printed(MINUS_TEN_34) == "-" + ("0." + "00000" + Text([1] + Zeros(34)))
    ensures |Printed(MINUS_TEN_34)| == STRING_SIZE
  {
    hide Shortest, Text, Zeros, RawCoefficient, BiasedExponent, Combination, Negative, MINUS_TEN_34, Fractional;
    FieldsOfMinusTen34();
    ShortestOfTen34();
    FractionOfTen34([1] + Zeros(34));
    RoomNeeded(MINUS_TEN_34);
  }

  // ---- numerals that are refused although they are representable ----

  lemma TextOfTen()
    ensures Region([1, 0], [0], true) == "10.0"
  {
    assert [1, 0][..1] == [1] && [1][..0] == [] && [0][..0] == [];
    assert Text([1]) == "1" && Text([0]) == "0";
  }

  lemma DigitsOf6177()
    ensures Shortest(6177) == [6, 1, 7, 7]
  {
    assert Shortest(6) == [6] && Shortest(61) == [6] + [1] && Shortest(617) == [6, 1] + [7];
  }

  lemma TextOf6177()
    ensures Text([6, 1, 7, 7]) == "6177"
  {
    assert [6, 1, 7, 7][..3] == [6, 1, 7] && [6, 1, 7][..2] == [6, 1] && [6, 1][..1] == [6] && [6][..0] == [];
    assert Text([6]) == "6" && Text([6, 1]) == "61" && Text([6, 1, 7]) == "617";
  }

  lemma TextOfMinus6177()
    ensures SignedText(-6177) == "-6177"
  {
    DigitsOf6177();
    TextOf6177();
    hide Shortest, Text;
  }

  lemma ParseTenPointZero()
    ensures Parse("10.0E-6177", -1) == Numeral(false, false, [1, 0, 0], true, 1, -6177)
  {
    TextOfTen();
    TextOfMinus6177();
    hide Region, SignedText;
    assert "10.0E-6177" == Sign(false) + Region([1, 0], [0], true) + Tail(Some(-6177));
    ParseLayout("10.0E-6177", false, [1, 0], [0], true, Some(-6177));
    assert [1, 0] + [0] == [1, 0, 0];
  }

  lemma ValueOfHundred()
    ensures Value([1, 0, 0]) == 100 && Strip([1, 0, 0]) == [1, 0, 0] && Pow10(2) == 100
  {
    assert [1, 0, 0][..2] == [1, 0] && [1, 0][..1] == [1] && [1][..0] == [];
    assert Value([1]) == 1 && Value([1, 0]) == 10;
  }

  /** 10^-6176 with two zeros to drop, one of them behind the point: the point is taken for a digit to be rounded. */
  lemma PointIsRounded()
    ensures var n := Parse("10.0E-6177", -1);
            && InDomain("10.0E-6177", -1) && n.Numeral? && DigitsInReach(n)
            && HasValue(Strip(n.digits), WrittenScale(n)) && Meaning("10.0E-6177", -1) == None
  {
    ParseTenPointZero();
    ValueOfHundred();
    hide Parse, Value, Pow10, Strip, Meaning;
    assert SameValue(1, EXPONENT_MIN, Value([1, 0, 0]), -6178);
    AcceptedInReach("10.0E-6177", -1);
  }

  lemma ThirtyFiveDigits(ds: seq<Digit>)
    requires |ds| == 35 && ds[0] != 0 && ds[34] == 0
    ensures HasValue(ds, 0)
  {
    FitsHasValue(ds, 0);
  }

  /** A leading zero makes the parser take the 34th digit for the 35th. */
  lemma LeadingZeroShiftsTheCheck(ds: seq<Digit>)
    requires |ds| == 35 && ds[0] != 0 && ds[33] != 0 && ds[34] == 0
    ensures var text := Region([0] + ds, [], false);
            var n := Parse(text, -1);
            && InDomain(text, -1) && n.Numeral?
            && HasValue(Strip(n.digits), WrittenScale(n)) && Meaning(text, -1) == None
  {
    var all := [0] + ds;
    var text := Region(all, [], false);
    ParseUnsigned(all, [], false);
    assert all + [] == all;
    StripAt(all, 1);
    ThirtyFiveDigits(ds);
    PlainRegion(all, [], false);
    var n := Numeral(false, false, all, false, 0, 0);
    assert !ZeroAt(n, 34);
    hide Parse, Region, Strip, HasValue, Meaning, ZeroAt;
    AcceptedWhen(text, -1);
  }

  /** A point behind 35 digits is taken for a digit for which there is no place. */
  lemma PointBehindManyDigits(ds: seq<Digit>)
    requires |ds| == 35 && ds[0] != 0 && ds[34] == 0
    ensures var text := Region(ds, [], true);
            var n := Parse(text, -1);
            && InDomain(text, -1) && n.Numeral? && DigitsInReach(n)
            && HasValue(Strip(n.digits), WrittenScale(n)) && Meaning(text, -1) == None
  {
    var text := Region(ds, [], true);
    ParseUnsigned(ds, [], true);
    assert ds + [] == ds;
    StripAt(ds, 0);
    ThirtyFiveDigits(ds);
    PlainRegion(ds, [], true);
    hide Parse, Region, Strip, HasValue, Meaning;
    AcceptedInReach(text, -1);
  }

  // ---- the clamp, as to representability ----

  lemma HundredHasValue(zeros: nat)
    ensures HasValue([1, 0, 0] + Zeros(zeros), 0 - zeros)
    ensures Strip([1, 0, 0] + Zeros(zeros)) == [1, 0, 0] + Zeros(zeros)
  {
    ValueOfHundred();
    ZerosAreZero(zeros);
    ValueOfZeros(Zeros(zeros));
    ValueAppend([1, 0, 0], Zeros(zeros));
    StripAt([1, 0, 0] + Zeros(zeros), 0);
    hide Value, Zeros, Pow10, Strip;
    assert SameValue(100, 0, Value([1, 0, 0] + Zeros(zeros)), 0 - zeros);
  }

  lemma PlainNumeral(whole: seq<Digit>, fraction: seq<Digit>)
    requires whole != [] && |whole| + |fraction| < 0x7ffe_fff0
    requires !ReadsPastDigits(Numeral(false, false, whole + fraction, true, |fraction|, 0))
    ensures InDomain(Region(whole, fraction, true), -1)
    ensures Parse(Region(whole, fraction, true), -1) == Numeral(false, false, whole + fraction, true, |fraction|, 0)
  {
    hide Parse, Region, ReadsPastDigits;
    ParseUnsigned(whole, fraction, true);
    PlainRegion(whole, fraction, true);
  }

  /** A hundred, written with more than 2^14 zeros behind the point, is refused. */
  lemma LongHundredIsRefused(zeros: nat)
    requires 16384 < zeros < 0x7ffe_0000
    ensures var text := Region([1, 0, 0], Zeros(zeros), true);
            var n := Parse(text, -1);
            && InDomain(text, -1) && n.Numeral? && DigitsInReach(n) && Clamped(n)
            && HasValue(Strip(n.digits), WrittenScale(n)) && Meaning(text, -1) == None
  {
    hide Parse, Region, Strip, HasValue, Meaning, Zeros, InDomain, ReadsPastDigits, PointInTheWay;
    var n := Numeral(false, false, [1, 0, 0] + Zeros(zeros), true, zeros, 0);
    HundredHasValue(zeros);
    ReadsPastDigitsWhen(n);
    PlainNumeral([1, 0, 0], Zeros(zeros));
    AcceptedInReach(Region([1, 0, 0], Zeros(zeros), true), -1);
  }

  /** A point, at least 2^14 zeros and a 1 is accepted, although no number has its value. */
  lemma LongFractionIsNoNumber(zeros: nat)
    requires 16384 <= zeros < 0x7ffe_0000
    ensures var text := Region([0], Zeros(zeros) + [1], true);
            var n := Parse(text, -1);
            && InDomain(text, -1) && n.Numeral? && DigitsInReach(n) && Clamped(n)
            && !HasValue(Strip(n.digits), WrittenScale(n)) && Meaning(text, -1).Some?
  {
    hide Parse, Region, Strip, HasValue, Meaning, Zeros, InDomain, ReadsPastDigits, PointInTheWay;
    var fraction := Zeros(zeros) + [1];
    var n := Numeral(false, false, [0] + fraction, true, |fraction|, 0);
    StripClampedOne(zeros);
    ReadsPastDigitsWhen(n);
    PlainNumeral([0], fraction);
    AcceptedInReach(Region([0], fraction, true), -1);
    ClampedInReach(n);
  }
}
