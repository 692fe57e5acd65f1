/** The significands from 10^34 up to 2^113: zero by the standard, 35 digits to the code. */
module DecimalWindow {
  import opened Common
  import opened DecimalDigits
  import opened Decimal128
  import opened DecimalPrint
  import opened DecimalToString
  import opened DecimalSyntax
  import opened DecimalRoundTrip

  /** The digits of a significand in the window, of which a sign in front may cost one. */
  lemma WindowDigits(d: Bits)
    requires InWindow(d)
    ensures var ds := PrintedDigits(d);
            |ds| == 35 && ds[0] != 0 && Strip(ds) == ds && Strip(Fitting(Negative(d), ds)) == Fitting(Negative(d), ds)
  {
    DigitsOfPrinted(d);
    ValueOfShortest(RawCoefficient(d));
    StripAt(PrintedDigits(d), 0);
    StripAt(Fitting(Negative(d), PrintedDigits(d)), 0);
  }

  lemma LaidAsRendered(negative: bool, ds: seq<Digit>, exponent: int)
    requires 0 < |ds| <= 34
    ensures Laid(negative, ds, exponent) == Unsigned(ds, exponent)
  {
    hide Scientific;
  }

  lemma OutsideWindow(d: Bits)
    requires !InWindow(d)
    ensures Printed(d) == Render(Decode(d))
  {
    hide Unsigned, Scientific, Shortest, RawCoefficient, BiasedExponent;
    if Combination(d) < 30 {
      DigitsOfPrinted(d);
      LaidAsRendered(Negative(d), PrintedDigits(d), BiasedExponent(d) - EXPONENT_BIAS);
    }
  }

  // ---- how much room the text needs ----

  lemma ScientificLength(ds: seq<Digit>, exponent: int)
    requires 1 < |ds| && -10000 < |ds| - 1 + exponent < 10000
    ensures |Scientific(ds, exponent)| <= |ds| + 7
  {
    SignedTextIsShort(|ds| - 1 + exponent);
    hide Text, SignedText;
  }

  lemma FractionalLength(ds: seq<Digit>, exponent: int)
    requires ds != [] && exponent < 0
    ensures |Fractional(ds, exponent)| == if |ds| + exponent > 0 then |ds| + 1 else 2 - exponent
  {
    hide Text, Zeros;
  }

  lemma LaidLength(negative: bool, ds: seq<Digit>, exponent: int)
    requires |ds| == 35 && EXPONENT_MIN <= exponent <= EXPONENT_MAX
    ensures var length := (if negative then 1 else 0) + |Laid(negative, ds, exponent)|;
            length <= STRING_SIZE && (length == STRING_SIZE <==> negative && exponent == -40)
  {
    hide Text, Scientific, Fractional;
    if 34 + exponent < -6 || exponent > 0 {
      var fitting := Fitting(negative, ds);
      ScientificLength(fitting, exponent + (|ds| - |fitting|));
    } else if exponent < 0 {
      FractionalLength(ds, exponent);
    }
  }

  lemma WindowLength(d: Bits)
    requires InWindow(d)
    ensures |Printed(d)| <= STRING_SIZE && (|Printed(d)| == STRING_SIZE <==> Overruns(d))
  {
    DigitsOfPrinted(d);
    hide RawCoefficient, BiasedExponent, PrintedDigits, Laid;
    LaidLength(Negative(d), PrintedDigits(d), BiasedExponent(d) - EXPONENT_BIAS);
  }

  /** The documented 43 bytes hold the text and its terminator exactly when the encoding does not overrun them. */
  lemma RoomNeeded(d: Bits)
    ensures |Printed(d)| + 1 <= STRING_SIZE + 1
    ensures |Printed(d)| + 1 <= STRING_SIZE <==> !Overruns(d)
  {
    if InWindow(d) {
      WindowLength(d);
    } else {
      OutsideWindow(d);
      DecodeIsRepresentable(d);
      RenderedLength(Decode(d));
      hide *;
    }
  }

  // ---- reading the text back ----

  /** The parts of a text of 35 digits: a sign, digits that include those that fit, and an exponent. */
  datatype Parts = Parts(whole: seq<Digit>, fraction: seq<Digit>, point: bool, exponent: Option<int>)

  predicate Spells(text: string, negative: bool, p: Parts, fitting: seq<Digit>) {
    && text == Sign(negative) + Region(p.whole, p.fraction, p.point) + Tail(p.exponent)
    && p.whole != [] && (!p.point ==> p.fraction == []) && Strip(p.whole + p.fraction) == fitting
  }

  /** The exponent that is written, or zero. */
  function Written(p: Parts): int {
    if p.exponent.Some? then p.exponent.value else 0
  }

  predicate Moderate(p: Parts) {
    |p.whole| + |p.fraction| < 7000 && -7000 < Written(p) < 7000
  }

  lemma LaidSpells(negative: bool, ds: seq<Digit>, exponent: int) returns (p: Parts)
    requires |ds| == 35 && ds[0] != 0
    ensures var fitting := if 34 + exponent < -6 || exponent > 0 then Fitting(negative, ds) else ds;
            && Spells(Sign(negative) + Laid(negative, ds, exponent), negative, p, fitting)
            && (EXPONENT_MIN <= exponent <= EXPONENT_MAX ==>
                  Moderate(p) && Written(p) - |p.fraction| == exponent + (|ds| - |fitting|))
  {
    hide Text, Region, Tail, Sign;
    if 34 + exponent < -6 || exponent > 0 {
      var fitting := Fitting(negative, ds);
      StripAt(fitting, 0);
      ScientificLayout(fitting, exponent + (|ds| - |fitting|));
      p := Parts(fitting[..1], fitting[1..], true, Some(34 + exponent));
    } else if exponent == 0 {
      StripAt(ds, 0);
      IntegerLayout(ds);
      p := Parts(ds, [], false, None);
    } else {
      FractionalLayout(ds, exponent);
      StripFractional(ds, 35 + exponent);
      p := Parts(Whole(ds, 35 + exponent), Behind(ds, 35 + exponent), true, None);
    }
    Concat3(Sign(negative), Region(p.whole, p.fraction, p.point), Tail(p.exponent));
  }

  lemma StripFractional(ds: seq<Digit>, radix: int)
    requires radix <= |ds| && ds != [] && ds[0] != 0
    ensures Strip(Whole(ds, radix) + Behind(ds, radix)) == ds
  {
    if radix > 0 {
      assert ds[..radix] + ds[radix..] == ds;
      StripAt(ds, 0);
    } else {
      ZerosAreZero(-radix);
      StripAt([0] + (Zeros(-radix) + ds), 1 - radix);
    }
  }

  /** What starts with a digit other than zero is not read as zero. */
  lemma NotReadAsZero(text: string, negative: bool, p: Parts, fitting: seq<Digit>, zero: Number)
    requires Spells(text, negative, p, fitting) && fitting != []
    requires zero.Finite? && zero.coefficient == 0
    ensures Meaning(text, -1) != Some(zero)
  {
    hide Parse, Finish, Region, Tail, Sign, Strip;
    ParseLayout(text, negative, p.whole, p.fraction, p.point, p.exponent);
    if Finish(text, Parse(text, -1)).Some? {
      FinishNonZero(text, Parse(text, -1));
    }
  }

  lemma FinishNonZero(text: string, n: Syntax)
    requires n.Numeral? && Strip(n.digits) != [] && Finish(text, n).Some?
    ensures Finish(text, n).value.Finite? && Finish(text, n).value.coefficient > 0
  {
    var ds := Strip(n.digits);
    AboutStrip(n.digits);
    var s := Normalise(ds, StartExponent(n.exponent, n.fraction), text, n.Offset());
    LeadingDigit(ds[..s.kept]);
    Positive(Value(ds[..s.kept]), Pow10(s.padding));
  }

  lemma Positive(a: nat, b: nat)
    requires a > 0 && b > 0
    ensures a * b > 0
  {
  }

  /** Reading a text of 35 digits stays within the digits, but for 34 of them and an exponent one too large. */
  lemma DomainOfSpelled(text: string, negative: bool, p: Parts, fitting: seq<Digit>)
    requires Spells(text, negative, p, fitting) && Moderate(p) && |fitting| >= MAX_DIGITS
    ensures Parse(text, -1).Numeral?
    ensures ReadsPastDigits(Parse(text, -1)) <==>
              |fitting| == MAX_DIGITS && Written(p) - |p.fraction| == EXPONENT_MAX + 1
    ensures InDomain(text, -1) <==> !ReadsPastDigits(Parse(text, -1))
  {
    hide Parse, Region, Tail, Sign, Strip, StartExponent;
    ParseLayout(text, negative, p.whole, p.fraction, p.point, p.exponent);
    PlainText(text, negative, p.whole, p.fraction, p.point, p.exponent);
    StartExponentOfPrinted(Written(p), |p.fraction|);
  }

  /** The encodings whose text makes the parser read past its digits: the digit that is dropped raises the exponent. */
  predicate PrintsTooLarge(d: Bits) {
    InWindow(d) && Negative(d) && BiasedExponent(d) - EXPONENT_BIAS == EXPONENT_MAX
  }

  lemma DomainOfWindow(d: Bits)
    requires InWindow(d)
    ensures Parse(Printed(d), -1).Numeral? && (ReadsPastDigits(Parse(Printed(d), -1)) <==> PrintsTooLarge(d))
    ensures InDomain(Printed(d), -1) <==> !PrintsTooLarge(d)
  {
    WindowDigits(d);
    DigitsOfPrinted(d);
    var negative, ds, e := Negative(d), PrintedDigits(d), BiasedExponent(d) - EXPONENT_BIAS;
    var p := LaidSpells(negative, ds, e);
    var fitting := if 34 + e < -6 || e > 0 then Fitting(negative, ds) else ds;
    hide Laid, InDomain, ReadsPastDigits, PrintedDigits, Spells, BiasedExponent, Parse, RawCoefficient, Moderate;
    DomainOfSpelled(Printed(d), negative, p, fitting);
  }

  /**
   * Printing agrees with the standard, and parsing the text gives the number back, exactly outside the window. The
   * text is one that the parser reads within its digits, but for the largest exponent behind a minus sign in the
   * window.
   */
  lemma RoundTrip(d: Bits)
    ensures Printed(d) == Render(Decode(d)) <==> !InWindow(d)
    ensures Meaning(Printed(d), -1) == Some(Decode(d)) <==> !InWindow(d)
    ensures InDomain(Printed(d), -1) <==> !PrintsTooLarge(d)
    ensures Canonical(d) ==> !InWindow(d) && Encode(Decode(d)) == d
  {
    DecodeIsRepresentable(d);
    PrintThenParse(Decode(d));
    if InWindow(d) {
      WindowIsNotRead(d);
      DomainOfWindow(d);
    } else {
      OutsideWindow(d);
    }
    if Canonical(d) {
      EncodeDecode(d);
    }
  }

  lemma WindowIsNotRead(d: Bits)
    requires InWindow(d)
    ensures Meaning(Printed(d), -1) != Some(Decode(d))
  {
    hide Laid, Meaning, PrintedDigits, Spells, BiasedExponent, RawCoefficient, Moderate, Negative, Strip;
    WindowDigits(d);
    var negative, ds, e := Negative(d), PrintedDigits(d), BiasedExponent(d) - EXPONENT_BIAS;
    var p := LaidSpells(negative, ds, e);
    var fitting := if 34 + e < -6 || e > 0 then Fitting(negative, ds) else ds;
    NotReadAsZero(Printed(d), negative, p, fitting, DecodedWindow(d));
  }

  /** What an encoding in the window stands for. */
  function DecodedWindow(d: Bits): (zero: Number)
    requires InWindow(d)
    ensures zero == Decode(d) && zero.Finite? && zero.coefficient == 0
  {
    Decode(d)
  }
}
