/** Which numerals the parser accepts, in terms of the digits, the point and the exponent that were written. */
module DecimalAcceptance {
  import opened Common
  import opened DecimalDigits
  import opened Decimal128
  import opened DecimalSyntax
  import opened DecimalExact

  // ---- what is representable ----

  /** Some decimal128 number has the value of the digits, the last of which counts 10^x. */
  ghost predicate HasValue(digits: seq<Digit>, x: int) {
    exists c: nat, e: int :: c < TEN_34 && EXPONENT_MIN <= e <= EXPONENT_MAX && SameValue(c, e, Value(digits), x)
  }

  /** How many digits have to go for want of places, or to bring the exponent up. */
  function Dropped(count: nat, x: int): nat {
    var places := if count > MAX_DIGITS then count - MAX_DIGITS else 0;
    var low := if x < EXPONENT_MIN then EXPONENT_MIN - x else 0;
    if places < low then low else places
  }

  /** The digits that have to go are zeros, and zeros that have to be appended find a place. */
  predicate Fits(digits: seq<Digit>, x: int) {
    if x > EXPONENT_MAX then |digits| + (x - EXPONENT_MAX) <= MAX_DIGITS
    else
      var d := Dropped(|digits|, x);
      && d < |digits| && x + d <= EXPONENT_MAX
      && forall i :: |digits| - d <= i < |digits| ==> digits[i] == 0
  }

  lemma FitsHasValue(digits: seq<Digit>, x: int)
    requires digits != [] && Fits(digits, x)
    ensures HasValue(digits, x)
  {
    if x > EXPONENT_MAX {
      FitsCoefficient(digits, x - EXPONENT_MAX);
      assert SameValue(Value(digits) * Pow10(x - EXPONENT_MAX), EXPONENT_MAX, Value(digits), x);
    } else {
      var d := Dropped(|digits|, x);
      var kept := digits[..|digits| - d];
      DropZeros(digits, |digits| - d);
      FitsCoefficient(kept, 0);
      assert SameValue(Value(kept), x + d, Value(digits), x);
    }
  }

  /** A number of many digits is not below a small power of ten. */
  lemma PowersOrdered(m: nat, n: nat)
    requires Pow10(m) < Pow10(n)
    ensures m < n
  {
    if n <= m {
      Pow10Monotone(n, m);
    }
  }

  lemma TimesAtLeast(a: nat, b: nat, p: nat)
    requires a >= b
    ensures a * p >= b * p
  {
  }

  /** A multiple of 10^k ends in k zeros. */
  lemma MultipleEndsInZeros(digits: seq<Digit>, c: nat, k: nat)
    requires k <= |digits| && c * Pow10(k) == Value(digits)
    ensures forall i :: |digits| - k <= i < |digits| ==> digits[i] == 0
  {
    var front, back := digits[..|digits| - k], digits[|digits| - k..];
    assert front + back == digits;
    ValueAppend(front, back);
    ValueBound(back);
    SameMultiple(c, Value(front), Pow10(k), Value(back));
    ZeroValue(back);
    forall i | |digits| - k <= i < |digits| ensures digits[i] == 0 {
      assert digits[i] == back[i - (|digits| - k)];
    }
  }

  lemma SameMultiple(c: nat, q: nat, p: nat, r: nat)
    requires c * p == q * p + r && r < p
    ensures r == 0
  {
    if c > q {
      assert (q + 1) * p == q * p + p;
      TimesAtLeast(c, q + 1, p);
    } else {
      TimesAtLeast(q, c, p);
    }
  }

  lemma ValueFits(digits: seq<Digit>, x: int, c: nat, e: int)
    requires digits != [] && digits[0] != 0
    requires c < TEN_34 && EXPONENT_MIN <= e <= EXPONENT_MAX && SameValue(c, e, Value(digits), x)
    ensures Fits(digits, x)
  {
    var n := |digits|;
    LeadingDigit(digits);
    ValueBound(digits);
    Pow10Of34();
    if e <= x {
      Pow10Add(n - 1, x - e);
      TimesAtLeast(Value(digits), Pow10(n - 1), Pow10(x - e));
      PowersOrdered(n - 1 + (x - e), 34);
    } else {
      var k := e - x;
      AtLeastOnce(c, Pow10(k), Value(digits));
      PowersOrdered(k, n);
      Pow10Add(34, k);
      TimesAtLeast(TEN_34, c + 1, Pow10(k));
      LessTimes(c, Pow10(k));
      PowersOrdered(n - 1, 34 + k);
      MultipleEndsInZeros(digits, c, k);
    }
  }

  lemma LessTimes(c: nat, p: nat)
    requires p > 0
    ensures c * p < (c + 1) * p
  {
  }

  lemma AtLeastOnce(c: nat, p: nat, v: nat)
    requires c * p == v && v > 0
    ensures p <= v
  {
    if c > 0 {
      TimesAtLeast(c, 1, p);
    }
  }

  /** Representability in terms of the digits alone. */
  lemma HasValueWhen(digits: seq<Digit>, x: int)
    requires digits != [] && digits[0] != 0
    ensures HasValue(digits, x) <==> Fits(digits, x)
  {
    hide Fits;
    if Fits(digits, x) {
      FitsHasValue(digits, x);
    }
    if HasValue(digits, x) {
      var c: nat, e: int :| c < TEN_34 && EXPONENT_MIN <= e <= EXPONENT_MAX && SameValue(c, e, Value(digits), x);
      ValueFits(digits, x, c, e);
    }
  }

  // ---- what the parser looks at ----

  /** The exponent of the last digit, as the text has it. */
  function WrittenScale(n: Syntax): int
    requires n.Numeral?
  {
    n.exponent - n.fraction
  }

  /** The exponent of the last digit that the code works with: the clamp replaces the one in the text. */
  function Scale(n: Syntax): int
    requires n.Numeral?
  {
    if Clamped(n) then EXPONENT_MIN else WrittenScale(n)
  }

  /** The characters in front of the digits that belong to the significand: the point counts as one of them. */
  function PointWidth(n: Syntax): nat
    requires n.Numeral?
  {
    if n.point then 1 else 0
  }

  /** Character number `q` of the significand, digits and point, is a zero. */
  predicate ZeroAt(n: Syntax, q: nat)
    requires n.Numeral?
  {
    var point := |n.digits| - n.fraction;
    if n.point && q >= point then point < q && 0 < q <= |n.digits| && n.digits[q - 1] == 0
    else q < |n.digits| && n.digits[q] == 0
  }

  /** The digits as if those without a place were zeros. */
  function Seen(digits: seq<Digit>): seq<Digit> {
    if |digits| > MAX_DIGITS then digits[..MAX_DIGITS] + Zeros(|digits| - MAX_DIGITS) else digits
  }

  /**
   * The checks in the text. The digits without a place are looked for behind the first 34 characters, leading zeros
   * included; of the digits that go, the first is looked for as if the point stood in front of it.
   */
  predicate LooksZero(n: Syntax)
    requires n.Numeral?
  {
    var count, width := |Strip(n.digits)|, PointWidth(n);
    var d := Dropped(count, Scale(n));
    && (forall q :: MAX_DIGITS + width <= q < count + width ==> ZeroAt(n, q))
    && (0 < d <= |n.digits| ==> ZeroAt(n, |n.digits| + width - d))
  }

  /** The same checks, on the text. */
  predicate LooksZeroIn(text: string, n: Syntax, x: int)
    requires n.Numeral?
  {
    var count := |Strip(n.digits)|;
    var d := Dropped(count, x);
    && (forall p :: MAX_DIGITS + n.Offset() <= p < count + n.Offset() ==> At(text, p) == '0')
    && (0 < d <= |n.digits| ==> At(text, |n.digits| + n.Offset() - d) == '0')
  }

  lemma SeenZeros(digits: seq<Digit>)
    ensures |Seen(digits)| == |digits|
    ensures forall i :: 0 <= i < |digits| ==> Seen(digits)[i] == if i < MAX_DIGITS then digits[i] else 0
  {
    if |digits| > MAX_DIGITS {
      ZerosAreZero(|digits| - MAX_DIGITS);
    }
  }

  lemma NormaliseWhen(digits: seq<Digit>, x: int, text: string, offset: nat)
    requires digits != []
    ensures Normalise(digits, x, text, offset).Fit? <==>
              && Fits(Seen(digits), x)
              && forall p :: MAX_DIGITS + offset <= p < |digits| + offset ==> At(text, p) == '0'
    ensures Normalise(digits, x, text, offset).Fit? ==>
              Normalise(digits, x, text, offset).kept == |digits| - Dropped(|digits|, x)
  {
    SeenZeros(digits);
    hide Seen;
    if x <= EXPONENT_MAX {
      StoredZeros(digits, x);
    }
  }

  lemma StoredZeros(digits: seq<Digit>, x: int)
    requires x <= EXPONENT_MAX && digits != []
    ensures var stored := if |digits| < MAX_DIGITS then |digits| else MAX_DIGITS;
            var under := EXPONENT_MIN - (x + (|digits| - stored));
            var d := Dropped(|digits|, x);
            && (under < stored <==> d < |digits|)
            && |digits| - d == (if under > 0 then stored - under else stored)
            && (0 < under < stored ==>
                  ((forall i :: |digits| - d <= i < |digits| ==> Seen(digits)[i] == 0)
                   <==> forall i :: stored - under <= i < stored ==> digits[i] == 0))
            && (under <= 0 ==> forall i :: |digits| - d <= i < |digits| ==> Seen(digits)[i] == 0)
  {
    SeenZeros(digits);
    hide Seen;
    var stored := if |digits| < MAX_DIGITS then |digits| else MAX_DIGITS;
    var under := EXPONENT_MIN - (x + (|digits| - stored));
    if 0 < under < stored && forall i :: |digits| - Dropped(|digits|, x) <= i < |digits| ==> Seen(digits)[i] == 0 {
      forall i | stored - under <= i < stored ensures digits[i] == 0 {
        assert Seen(digits)[i] == 0;
      }
    }
  }

  /** The rounding check refuses whatever is not the character 0 at its place. */
  lemma FinishWhen(text: string, n: Syntax)
    requires n.Numeral? && Strip(n.digits) != []
    ensures var x := StartExponent(n.exponent, n.fraction);
            Finish(text, n).Some? <==> Fits(Seen(Strip(n.digits)), x) && LooksZeroIn(text, n, x)
  {
    var digits, x := Strip(n.digits), StartExponent(n.exponent, n.fraction);
    NormaliseWhen(digits, x, text, n.Offset());
    SeenZeros(digits);
    hide Seen, StartExponent;
    var base := |n.digits| - |digits| + n.Offset();
    assert Significant(text, base, |digits|) <= |digits|;
  }

  // ---- from the text to the digits ----

  /** The digits behind the point are those that are not in front of it. */
  lemma {:induction false} FractionBehindPoint(r: string)
    requires !TwoPoints(r)
    ensures Fraction(r) == if '.' in r then |Digits(r)| - PointIndex(r) else 0
  {
    DigitPositions(r);
    if '.' !in r {
      NoFraction(r);
    } else {
      var front := r[..|r| - 1];
      assert r == front + [r[|r| - 1]];
      FrontHasOnePoint(r);
      DigitPositions(front);
      AboutPointIndex(front);
      if '.' in front {
        FractionBehindPoint(front);
      }
    }
  }

  lemma SpelledLength(text: string, n: Syntax, region: string)
    requires Spells(text, n, region)
    ensures |region| == |n.digits| + PointWidth(n) && n.fraction <= |n.digits|
    ensures n.point ==> PointIndex(region) == |n.digits| - n.fraction
  {
    DigitPositions(region);
    FractionBehindPoint(region);
  }

  lemma SpelledZero(text: string, n: Syntax, region: string, q: nat)
    requires Spells(text, n, region) && q < |n.digits| + PointWidth(n)
    ensures At(text, q + if n.signed then 1 else 0) == '0' <==> ZeroAt(n, q)
  {
    SpelledLength(text, n, region);
    DigitPositions(region);
    AboutPointIndex(region);
    hide Digits, Fraction, PointIndex, TwoPoints;
    var point := |n.digits| - n.fraction;
    assert At(text, q + if n.signed then 1 else 0) == region[q];
    if n.point && q >= point {
      if q > point {
        assert n.digits[q - 1] == DigitOf(region[q]);
        OtherPoint(region, point, q);
      }
    } else {
      assert n.digits[q] == DigitOf(region[q]);
    }
  }

  lemma OtherPoint(r: string, p: nat, q: nat)
    requires !TwoPoints(r) && p < q < |r| && r[p] == '.'
    ensures r[q] != '.'
  {
  }

  lemma LooksZeroWhen(text: string, n: Syntax, region: string)
    requires n.Numeral? && Spells(text, n, region)
    ensures LooksZeroIn(text, n, Scale(n)) <==> LooksZero(n)
  {
    hide Spells, ZeroAt, Strip, Dropped, Scale;
    var sign := if n.signed then 1 else 0;
    assert n.Offset() == PointWidth(n) + sign;
    forall q: nat | q < |n.digits| + PointWidth(n)
      ensures At(text, q + sign) == '0' <==> ZeroAt(n, q)
    {
      SpelledZero(text, n, region, q);
    }
    var count, width := |Strip(n.digits)|, PointWidth(n);
    if forall q :: MAX_DIGITS + width <= q < count + width ==> ZeroAt(n, q) {
      forall p | MAX_DIGITS + n.Offset() <= p < count + n.Offset() ensures At(text, p) == '0' {
        assert ZeroAt(n, p - sign);
      }
    }
    if forall p :: MAX_DIGITS + n.Offset() <= p < count + n.Offset() ==> At(text, p) == '0' {
      forall q | MAX_DIGITS + width <= q < count + width ensures ZeroAt(n, q) {
        assert At(text, q + sign) == '0';
      }
    }
  }

  /** The exponent the code starts from is the one written or clamped, or both are out of any reach. */
  lemma ScaleIsStart(n: Syntax)
    requires n.Numeral? && -0x8000_0000 <= n.exponent < 0x8000_0000 && n.fraction < 0x7fff_0000
    requires |n.digits| < 0x7fff_0000
    requires Strip(n.digits) != []
    ensures var x := StartExponent(n.exponent, n.fraction);
            x == Scale(n) || (!Fits(Seen(Strip(n.digits)), x) && !Fits(Seen(Strip(n.digits)), Scale(n)))
  {
    SeenZeros(Strip(n.digits));
    hide Seen, Strip;
  }

  /**
   * The main result, for every numeral: it is accepted if and only if it is zero, or its digits, with zeros for those
   * behind the 34th and with the exponent the code works with, are representable and the two checks in the text find
   * zeros. Unless the exponent is clamped, it is the one in the text.
   */
  lemma AcceptedWhen(text: string, len: int)
    requires InDomain(text, len) && Parse(text, len).Numeral?
    ensures var n := Parse(text, len);
            Meaning(text, len).Some? <==>
              Strip(n.digits) == [] || (HasValue(Seen(Strip(n.digits)), Scale(n)) && LooksZero(n))
  {
    var n := Parse(text, len);
    var region := ParseSpells(text, len);
    SpelledLength(text, n, region);
    var digits := Strip(n.digits);
    if digits != [] {
      AboutStrip(n.digits);
      FinishWhen(text, n);
      ScaleIsStart(n);
      LooksZeroWhen(text, n, region);
      SeenZeros(digits);
      hide Fits, LooksZero, LooksZeroIn, Seen, Strip, Parse, Spells, StartExponent, Scale, Finish;
      HasValueWhen(Seen(digits), Scale(n));
    }
  }

  // ---- when no digit escapes the checks ----

  /** A point that the checks in the text take for a digit. */
  predicate PointInTheWay(n: Syntax)
    requires n.Numeral?
  {
    var count := |Strip(n.digits)|;
    n.point && (n.fraction + MAX_DIGITS < count || n.fraction + 1 == Dropped(count, Scale(n)))
  }

  lemma AllSeen(digits: seq<Digit>)
    requires RestIsZero(digits)
    ensures Seen(digits) == digits
  {
    SeenZeros(digits);
    hide Seen;
  }

  /** With zeros for all digits that go, only the point can make the second check fail. */
  lemma SecondCheck(n: Syntax, d: nat)
    requires n.Numeral? && n.fraction <= |n.digits| && d <= |Strip(n.digits)|
    requires forall i :: |n.digits| - d <= i < |n.digits| ==> n.digits[i] == 0
    ensures (0 < d ==> ZeroAt(n, |n.digits| + PointWidth(n) - d)) <==> !(n.point && n.fraction + 1 == d)
  {
  }

  /** Without leading zeros the first check looks at the digits behind the 34th, unless the point is among them. */
  lemma FirstCheck(n: Syntax)
    requires n.Numeral? && n.fraction <= |n.digits|
    ensures (forall q :: MAX_DIGITS + PointWidth(n) <= q < |n.digits| + PointWidth(n) ==> ZeroAt(n, q))
            <==> RestIsZero(n.digits) && !(n.point && n.fraction + MAX_DIGITS < |n.digits|)
  {
    var width := PointWidth(n);
    if n.point && n.fraction + MAX_DIGITS < |n.digits| {
      assert !ZeroAt(n, |n.digits| - n.fraction);
    } else {
      forall i | MAX_DIGITS <= i < |n.digits|
        ensures ZeroAt(n, i + width) <==> n.digits[i] == 0
      {
      }
      if forall q :: MAX_DIGITS + width <= q < |n.digits| + width ==> ZeroAt(n, q) {
        forall i | MAX_DIGITS <= i < |n.digits| ensures n.digits[i] == 0 {
          assert ZeroAt(n, i + width);
        }
      }
      if RestIsZero(n.digits) {
        forall q | MAX_DIGITS + width <= q < |n.digits| + width ensures ZeroAt(n, q) {
          assert n.digits[q - width] == 0;
        }
      }
    }
  }

  /** The digits that go are zeros, of the digits without the leading zeros as of all of them. */
  lemma LastDigits(all: seq<Digit>, x: int)
    requires Fits(Strip(all), x)
    ensures var d := Dropped(|Strip(all)|, x);
            && (x <= EXPONENT_MAX ==> d < |Strip(all)|) && (x > EXPONENT_MAX ==> d == 0)
            && forall i :: |all| - d <= i < |all| ==> all[i] == 0
  {
    AboutStrip(all);
    var d, first := Dropped(|Strip(all)|, x), |all| - |Strip(all)|;
    hide Strip;
    if x <= EXPONENT_MAX {
      forall i | |all| - d <= i < |all| ensures all[i] == 0 {
        assert all[i] == Strip(all)[i - first];
      }
    }
  }

  lemma ChecksInReach(n: Syntax)
    requires n.Numeral? && n.fraction <= |n.digits| && DigitsInReach(n) && Strip(n.digits) != []
    ensures Fits(Seen(Strip(n.digits)), Scale(n)) && LooksZero(n)
       <==> Fits(Strip(n.digits), Scale(n)) && !PointInTheWay(n)
  {
    var digits, x := Strip(n.digits), Scale(n);
    hide Strip, Seen, Scale, ZeroAt;
    if |digits| > MAX_DIGITS {
      FirstCheck(n);
    }
    if RestIsZero(digits) {
      AllSeen(digits);
      if Fits(digits, x) {
        LastDigits(n.digits, x);
        SecondCheck(n, Dropped(|digits|, x));
      }
    }
  }

  lemma AcceptedAtScale(text: string, len: int)
    requires InDomain(text, len) && Parse(text, len).Numeral? && DigitsInReach(Parse(text, len))
    ensures var n := Parse(text, len);
            && n.fraction <= |n.digits| && (!n.point ==> n.fraction == 0)
            && (Meaning(text, len).Some? <==>
                  Strip(n.digits) == [] || (HasValue(Strip(n.digits), Scale(n)) && !PointInTheWay(n)))
  {
    var n := Parse(text, len);
    var region := ParseSpells(text, len);
    SpelledLength(text, n, region);
    FractionBehindPoint(region);
    var digits := Strip(n.digits);
    AcceptedWhen(text, len);
    if digits != [] {
      AboutStrip(n.digits);
      SeenZeros(digits);
      ChecksInReach(n);
      hide Fits, LooksZero, Seen, Strip, Parse, Spells, Scale, Meaning, PointInTheWay, DigitsInReach;
      HasValueWhen(digits, Scale(n));
      HasValueWhen(Seen(digits), Scale(n));
    }
  }

  /** Under the clamp at most 34 digits always pass, and they are never representable. */
  lemma ClampedInReach(n: Syntax)
    requires n.Numeral? && n.fraction <= |n.digits| && DigitsInReach(n) && Strip(n.digits) != [] && Clamped(n)
    requires -0x8000_0000 <= n.exponent < 0x8000_0000 && n.fraction < 0x7fff_0000
    ensures HasValue(Strip(n.digits), Scale(n)) && !PointInTheWay(n) <==> |Strip(n.digits)| <= MAX_DIGITS
    ensures |Strip(n.digits)| <= MAX_DIGITS ==> !HasValue(Strip(n.digits), WrittenScale(n))
  {
    WhenClamped(n);
    AboutStrip(n.digits);
    hide HasValue, Strip;
    HasValueWhen(Strip(n.digits), Scale(n));
    HasValueWhen(Strip(n.digits), WrittenScale(n));
  }

  /**
   * Without leading zeros, or with at most 34 digits behind them: unless its exponent is clamped, a numeral is
   * accepted if and only if it is zero, or some decimal128 number has its value and no point is in the way of a check.
   * With a clamped exponent it is accepted if and only if it has at most 34 digits, whatever its value.
   */
  lemma AcceptedInReach(text: string, len: int)
    requires InDomain(text, len) && Parse(text, len).Numeral? && DigitsInReach(Parse(text, len))
    ensures var n := Parse(text, len);
            Meaning(text, len).Some? <==>
              || Strip(n.digits) == []
              || (if Clamped(n) then |Strip(n.digits)| <= MAX_DIGITS
                  else HasValue(Strip(n.digits), WrittenScale(n)) && !PointInTheWay(n))
  {
    var n := Parse(text, len);
    var region := ParseSpells(text, len);
    FractionBound(region);
    AcceptedAtScale(text, len);
    hide Parse, Meaning, DigitsInReach, Strip, HasValue, PointInTheWay;
    if Clamped(n) && Strip(n.digits) != [] {
      ClampedInReach(n);
    }
  }

  /** A numeral is answered rightly when it is accepted if and only if some decimal128 number has its value. */
  ghost predicate AnsweredRightly(text: string, len: int)
    requires Parse(text, len).Numeral?
  {
    var n := Parse(text, len);
    Meaning(text, len).Some? <==> Strip(n.digits) == [] || HasValue(Strip(n.digits), WrittenScale(n))
  }

  /**
   * When the answer is right. Under the clamp this is never so for at most 34 digits, which are accepted although no
   * number has their value, nor for a value that some number has, which is refused.
   */
  lemma RightInReach(text: string, len: int)
    requires InDomain(text, len) && Parse(text, len).Numeral? && DigitsInReach(Parse(text, len))
    ensures var n := Parse(text, len);
            AnsweredRightly(text, len) <==>
              || Strip(n.digits) == []
              || (if Clamped(n) then |Strip(n.digits)| > MAX_DIGITS && !HasValue(Strip(n.digits), WrittenScale(n))
                  else !(HasValue(Strip(n.digits), WrittenScale(n)) && PointInTheWay(n)))
  {
    var n := Parse(text, len);
    var region := ParseSpells(text, len);
    FractionBound(region);
    AcceptedAtScale(text, len);
    AcceptedInReach(text, len);
    hide Parse, Meaning, DigitsInReach, Strip, HasValue, PointInTheWay;
    if Clamped(n) && Strip(n.digits) != [] {
      ClampedInReach(n);
    }
  }

  /** Every numeral with a clamped exponent, leading zeros or not, in terms of its digits. */
  lemma ClampedWhen(text: string, len: int)
    requires InDomain(text, len) && Parse(text, len).Numeral? && Clamped(Parse(text, len))
    requires Strip(Parse(text, len).digits) != []
    ensures var n := Parse(text, len);
            var accepted := Fits(Seen(Strip(n.digits)), EXPONENT_MIN) && LooksZero(n);
            && (Meaning(text, len).Some? <==> accepted)
            && (AnsweredRightly(text, len) <==> (accepted <==> Fits(Strip(n.digits), WrittenScale(n))))
  {
    var n := Parse(text, len);
    AboutStrip(n.digits);
    SeenZeros(Strip(n.digits));
    AcceptedWhen(text, len);
    hide Parse, Meaning, Strip, HasValue, Fits, Seen, LooksZero;
    HasValueWhen(Seen(Strip(n.digits)), EXPONENT_MIN);
    HasValueWhen(Strip(n.digits), WrittenScale(n));
  }

  /** Without a point there is no clamp, and nothing is refused wrongly. */
  lemma AcceptedWithoutPoint(text: string, len: int)
    requires InDomain(text, len) && Parse(text, len).Numeral? && DigitsInReach(Parse(text, len))
    requires !Parse(text, len).point
    ensures !Clamped(Parse(text, len)) && AnsweredRightly(text, len)
  {
    var n := Parse(text, len);
    hide Meaning, DigitsInReach, Strip, HasValue;
    AcceptedAtScale(text, len);
    AcceptedInReach(text, len);
    hide Parse;
    WhenClamped(n);
  }

  // ---- which of the numbers of the same value is the result ----

  /** The exponent of an accepted numeral is the one of its last digit, moved into range and past the digits that go. */
  lemma ExponentWhen(text: string, n: Syntax)
    requires n.Numeral? && Strip(n.digits) != [] && Finish(text, n).Some?
    ensures var x, v := StartExponent(n.exponent, n.fraction), Finish(text, n).value;
            && v.Finite? && v.negative == n.negative
            && v.exponent == if x > EXPONENT_MAX then EXPONENT_MAX else x + Dropped(|Strip(n.digits)|, x)
  {
    hide Strip, StartExponent, Coefficient, Significant;
  }

  /** At most 34 digits with an exponent in range are taken as they are written. */
  lemma TakenAsWritten(text: string, n: Syntax)
    requires n.Numeral? && |Strip(n.digits)| <= MAX_DIGITS
    requires -0x8000_0000 <= n.exponent < 0x8000_0000 && n.fraction < 0x7fff_0000 && !Clamped(n)
    requires EXPONENT_MIN <= n.exponent - n.fraction <= EXPONENT_MAX
    ensures Finish(text, n) == Some(Finite(n.negative, Value(n.digits), n.exponent - n.fraction))
  {
    var digits := Strip(n.digits);
    StartOfUnclamped(n);
    ValueOfStrip(n.digits);
    hide StartExponent, Strip, Clamped;
    if digits != [] {
      WholeCoefficient(digits);
      assert digits[..|digits|] == digits;
      hide Coefficient, Significant;
    }
  }

  /** Zero gets the exponent in range that is nearest to its own; one too small for 32 bits gets the largest. */
  lemma ExponentOfZero(text: string, n: Syntax)
    requires n.Numeral? && Strip(n.digits) == [] && !Clamped(n)
    requires -0x8000_0000 <= n.exponent < 0x8000_0000 && n.fraction < 0x7fff_0000
    ensures var x := n.exponent - n.fraction;
            Finish(text, n) == Some(Finite(n.negative, 0,
              if x > 6111 || x < -0x8000_0000 then 6111 else if x < -6176 then -6176 else x))
  {
    hide Strip;
  }
}
