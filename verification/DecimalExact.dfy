/** When an accepted text denotes exactly the number it is encoded as. */
module DecimalExact {
  import opened Common
  import opened DecimalDigits
  import opened Decimal128
  import opened DecimalSyntax

  /** c * 10^e == c' * 10^e', without fractions. */
  predicate SameValue(c: nat, e: int, c': nat, e': int) {
    if e <= e' then c == c' * Pow10(e' - e) else c * Pow10(e - e') == c'
  }

  /** The guard of the branch that replaces the exponent by the smallest one. */
  predicate Clamped(n: Syntax)
    requires n.Numeral?
  {
    SizeT(n.exponent) <= n.fraction && n.fraction - SizeT(n.exponent) > 0x4000
  }

  /** The digits the parser sees as long as none of them lies behind both leading zeros and 34 others. */
  predicate DigitsInReach(n: Syntax)
    requires n.Numeral?
  {
    |Strip(n.digits)| <= MAX_DIGITS || Strip(n.digits) == n.digits
  }

  /** The text is the scanned numeral, character by character, as far as the digits go. */
  predicate Spells(text: string, n: Syntax, region: string) {
    && n.Numeral? && !TwoPoints(region) && n.digits == Digits(region) && n.point == ('.' in region)
    && n.fraction == Fraction(region)
    && forall i :: 0 <= i < |region| ==>
         InSignificand(region[i]) && At(text, i + if n.signed then 1 else 0) == region[i]
  }

  lemma ParseSpells(text: string, len: int) returns (region: string)
    requires Parse(text, len).Numeral?
    ensures Spells(text, Parse(text, len), region) && |region| <= |text|
  {
    var n := Parse(text, len);
    var start := if n.signed then 1 else 0;
    var end := ScanEnd(text, start, if len == -1 then |text| else len);
    region := text[start..end];
  }

  lemma {:induction false} FractionBound(r: string)
    ensures Fraction(r) <= |r|
  {
    if r != "" {
      FractionBound(r[..|r| - 1]);
    }
  }

  /** A digit beyond the 34 stored ones is dropped only if it is zero: no point can hide behind the check. */
  lemma BeyondStoredAreZero(text: string, n: Syntax, region: string, i: nat)
    requires Spells(text, n, region) && MAX_DIGITS <= i < |n.digits|
    requires forall p :: MAX_DIGITS + n.Offset() <= p < |n.digits| + n.Offset() ==> At(text, p) == '0'
    ensures n.digits[i] == 0
  {
    DigitPositions(region);
    AboutPointIndex(region);
    var point := PointIndex(region);
    var q := if n.point && point > i then point else if n.point then i + 1 else i;
    assert At(text, q + if n.signed then 1 else 0) == region[q];
    assert At(text, q + if n.signed then 1 else 0) == '0';
  }

  lemma DropZeros(digits: seq<Digit>, kept: nat)
    requires kept <= |digits| && forall i :: kept <= i < |digits| ==> digits[i] == 0
    ensures Value(digits) == Value(digits[..kept]) * Pow10(|digits| - kept)
  {
    ValueOfZeros(digits[kept..]);
    ValueAppend(digits[..kept], digits[kept..]);
    assert digits[..kept] + digits[kept..] == digits;
  }

  lemma StartOfUnclamped(n: Syntax)
    requires n.Numeral? && !Clamped(n) && n.fraction < 0x7fff_0000
    requires -0x8000_0000 <= n.exponent < 0x8000_0000
    ensures var x := StartExponent(n.exponent, n.fraction);
            x == n.exponent - n.fraction || x > EXPONENT_MAX + MAX_DIGITS
  {
  }

  /** The digits for which there is no room: those behind the first 34, not counting leading zeros. */
  predicate RestIsZero(digits: seq<Digit>) {
    forall i :: MAX_DIGITS <= i < |digits| ==> digits[i] == 0
  }

  /** Normalisation looks at each of the 34 stored digits that it drops. */
  lemma DroppedAreZero(digits: seq<Digit>, x: int, text: string, offset: nat)
    requires Normalise(digits, x, text, offset).Fit? && RestIsZero(digits)
    ensures forall i :: Normalise(digits, x, text, offset).kept <= i < |digits| ==> digits[i] == 0
  {
  }

  /** The check in the text of the digits behind the 34th sees all of them, unless zeros lead. */
  lemma InReach(text: string, n: Syntax, region: string, x: int)
    requires Spells(text, n, region) && DigitsInReach(n)
    requires Normalise(Strip(n.digits), x, text, n.Offset()).Fit?
    ensures RestIsZero(Strip(n.digits))
  {
    var digits := Strip(n.digits);
    forall i | MAX_DIGITS <= i < |digits| ensures digits[i] == 0 {
      if x > EXPONENT_MAX {
        assert false;
      }
      BeyondStoredAreZero(text, n, region, i);
    }
  }

  lemma ShiftOfNormalise(digits: seq<Digit>, x: int, text: string, offset: nat)
    ensures var s := Normalise(digits, x, text, offset);
            s.Fit? ==> s.exponent - x == (|digits| - s.kept) - s.padding && (s.padding > 0 ==> s.kept == |digits|)
  {
  }

  /** Normalisation is exact if and only if the digits for which there is no room are zero. */
  lemma NormaliseIsExact(digits: seq<Digit>, x: int, text: string, offset: nat)
    ensures var s := Normalise(digits, x, text, offset);
            s.Fit? ==>
              (SameValue(Coefficient(digits[..s.kept], s.padding), s.exponent, Value(digits), x)
               <==> RestIsZero(digits))
  {
    var s := Normalise(digits, x, text, offset);
    ShiftOfNormalise(digits, x, text, offset);
    if s.Fit? {
      if RestIsZero(digits) {
        DroppedAreZero(digits, x, text, offset);
        ExactShift(digits, s.kept, s.padding, s.exponent, x);
      } else {
        LossyShift(digits, s.kept, s.padding, s.exponent, x);
      }
    }
  }

  lemma {:induction false} ZeroValue(ds: seq<Digit>)
    requires Value(ds) == 0
    ensures forall i :: 0 <= i < |ds| ==> ds[i] == 0
  {
    if ds != [] {
      ZeroValue(ds[..|ds| - 1]);
    }
  }

  lemma LossyShift(digits: seq<Digit>, kept: nat, padding: nat, e: int, x: int)
    requires kept <= |digits| && kept + padding <= MAX_DIGITS && (padding > 0 ==> kept == |digits|)
    requires e - x == |digits| - kept - padding && !RestIsZero(digits)
    ensures !SameValue(Coefficient(digits[..kept], padding), e, Value(digits), x)
  {
    var i :| MAX_DIGITS <= i < |digits| && digits[i] != 0;
    assert digits[kept..][i - kept] == digits[i];
    if Value(digits[kept..]) == 0 {
      ZeroValue(digits[kept..]);
    }
    WholeCoefficient(digits[..kept]);
    ValueAppend(digits[..kept], digits[kept..]);
    assert digits[..kept] + digits[kept..] == digits;
    hide Value, Pow10, RestIsZero;
  }

  lemma ExactShift(digits: seq<Digit>, kept: nat, padding: nat, e: int, x: int)
    requires kept <= |digits| && kept + padding <= MAX_DIGITS && (padding > 0 ==> kept == |digits|)
    requires e - x == |digits| - kept - padding && forall i :: kept <= i < |digits| ==> digits[i] == 0
    ensures SameValue(Coefficient(digits[..kept], padding), e, Value(digits), x)
  {
    hide Value, Pow10;
    if padding > 0 {
      assert digits[..kept] == digits;
    } else {
      WholeCoefficient(digits[..kept]);
      DropZeros(digits, kept);
    }
  }

  lemma TooLarge(kept: seq<Digit>, e: int, digits: seq<Digit>, x: int)
    requires kept != [] && kept[0] != 0 && e - x > |digits|
    ensures !SameValue(Value(kept), e, Value(digits), x)
  {
    LeadingDigit(kept);
    ValueBound(digits);
    hide Value, Pow10;
    Pow10Monotone(|digits|, e - x);
    Pow10Monotone(0, |kept| - 1);
    AtLeast(Value(kept), Pow10(e - x));
  }

  lemma AtLeast(c: nat, p: nat)
    requires c >= 1
    ensures c * p >= p
  {
    assert c * p == p + (c - 1) * p;
  }

  /** A clamped exponent is too large by more than any digits could make up for. */
  lemma ClampedIsWrong(text: string, n: Syntax)
    requires n.Numeral? && Clamped(n) && Strip(n.digits) != []
    requires -0x8000_0000 <= n.exponent < 0x8000_0000 && n.fraction < 0x7fff_0000
    requires Finish(text, n).Some?
    ensures var v := Finish(text, n).value;
            v.Finite? && !SameValue(v.coefficient, v.exponent, Value(n.digits), n.exponent - n.fraction)
  {
    var digits := Strip(n.digits);
    var s := Normalise(digits, EXPONENT_MIN, text, n.Offset());
    AboutStrip(n.digits);
    ValueOfStrip(n.digits);
    WhenClamped(n);
    ClampedShift(digits, text, n.Offset());
    FinishOfDigits(text, n);
    hide *;
    WholeCoefficient(digits[..s.kept]);
    TooLarge(digits[..s.kept], s.exponent, digits, n.exponent - n.fraction);
  }

  lemma FinishOfDigits(text: string, n: Syntax)
    requires n.Numeral? && Strip(n.digits) != [] && Finish(text, n).Some?
    ensures var s := Normalise(Strip(n.digits), StartExponent(n.exponent, n.fraction), text, n.Offset());
            && s.Fit?
            && Finish(text, n).value
               == Finite(n.negative, Coefficient(Strip(n.digits)[..s.kept], s.padding), s.exponent)
  {
  }

  lemma ClampedShift(digits: seq<Digit>, text: string, offset: nat)
    requires digits != []
    ensures var s := Normalise(digits, EXPONENT_MIN, text, offset);
            s.Fit? ==> s.kept > 0 && s.padding == 0 && s.exponent - EXPONENT_MIN >= |digits| - MAX_DIGITS
  {
  }

  lemma ZeroIsZero(text: string, n: Syntax)
    requires n.Numeral? && Strip(n.digits) == []
    ensures var v := Finish(text, n).value;
            SameValue(v.coefficient, v.exponent, Value(n.digits), n.exponent - n.fraction)
  {
    ValueOfStrip(n.digits);
  }

  lemma UnclampedIsExact(text: string, n: Syntax)
    requires n.Numeral? && Strip(n.digits) != [] && !Clamped(n)
    requires -0x8000_0000 <= n.exponent < 0x8000_0000 && n.fraction < 0x7fff_0000
    requires Finish(text, n).Some?
    ensures var v := Finish(text, n).value;
            && v.Finite?
            && (SameValue(v.coefficient, v.exponent, Value(n.digits), n.exponent - n.fraction)
                <==> RestIsZero(Strip(n.digits)))
  {
    var x := StartExponent(n.exponent, n.fraction);
    StartOfUnclamped(n);
    FinishOfDigits(text, n);
    ValueOfStrip(n.digits);
    NormaliseIsExact(Strip(n.digits), x, text, n.Offset());
  }

  lemma FinishIsFinite(text: string, n: Syntax)
    requires n.Numeral? && Finish(text, n).Some?
    ensures Finish(text, n).value.Finite? && Finish(text, n).value.negative == n.negative
  {
  }

  predicate Exact(v: Number, n: Syntax)
    requires n.Numeral?
  {
    && v.Finite? && v.negative == n.negative
    && SameValue(v.coefficient, v.exponent, Value(n.digits), n.exponent - n.fraction)
  }

  lemma ExactFinish(text: string, n: Syntax)
    requires n.Numeral? && Finish(text, n).Some?
    requires -0x8000_0000 <= n.exponent < 0x8000_0000 && n.fraction < 0x7fff_0000
    ensures Exact(Finish(text, n).value, n)
       <==> Strip(n.digits) == [] || (!Clamped(n) && RestIsZero(Strip(n.digits)))
  {
    FinishIsFinite(text, n);
    if Strip(n.digits) == [] {
      ZeroIsZero(text, n);
    } else if Clamped(n) {
      ClampedIsWrong(text, n);
    } else {
      UnclampedIsExact(text, n);
    }
  }

  /**
   * The main result, for every numeral that is accepted: it is encoded exactly if and only if it is zero,
   * or its exponent was not clamped and all digits behind the first 34 significant ones are zero.
   */
  lemma ExactWhen(text: string, len: int)
    requires InDomain(text, len) && Parse(text, len).Numeral? && Meaning(text, len).Some?
    ensures var n := Parse(text, len);
            Exact(Meaning(text, len).value, n) <==>
              Strip(n.digits) == [] || (!Clamped(n) && RestIsZero(Strip(n.digits)))
  {
    var region := ParseSpells(text, len);
    FractionBound(region);
    ExactFinish(text, Parse(text, len));
  }

  /**
   * Without leading zeros, or with at most 34 digits behind them, only the clamp can make an accepted numeral inexact.
   */
  lemma ExactUnlessClamped(text: string, len: int)
    requires InDomain(text, len) && Parse(text, len).Numeral? && Meaning(text, len).Some?
    requires DigitsInReach(Parse(text, len))
    ensures var n := Parse(text, len);
            Exact(Meaning(text, len).value, n) <==> Strip(n.digits) == [] || !Clamped(n)
  {
    var n := Parse(text, len);
    var region := ParseSpells(text, len);
    ExactWhen(text, len);
    if Strip(n.digits) != [] {
      FinishOfDigits(text, n);
      InReach(text, n, region, StartExponent(n.exponent, n.fraction));
    }
  }

  /**
   * In terms a caller can check: the clamp needs a fraction of more than 2^14 digits and an exponent that is not
   * negative.
   */
  lemma WhenClamped(n: Syntax)
    requires n.Numeral? && n.fraction < 0x7fff_0000 && -0x8000_0000 <= n.exponent < 0x8000_0000
    ensures Clamped(n) <==> n.exponent >= 0 && n.fraction - n.exponent > 0x4000
  {
  }
}
