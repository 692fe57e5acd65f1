/** Which texts are numerals, what their parts mean, and what a sign in front changes, character by character. */
module DecimalGrammar {
  import opened Common
  import opened DecimalDigits
  import opened Decimal128
  import opened DecimalPrint
  import opened DecimalSyntax
  import opened DecimalRoundTrip

  // ---- a character more in front ----

  lemma {:induction false} ScanEndShift(c: char, t: string, i: nat)
    requires i <= |t|
    ensures ScanEnd([c] + t, i + 1, |t| + 1) == ScanEnd(t, i, |t|) + 1
    decreases |t| - i
  {
    if i < |t| && InSignificand(t[i]) {
      ScanEndShift(c, t, i + 1);
    }
  }

  lemma {:induction false} SkipSpaceShift(c: char, t: string, i: nat)
    requires i <= |t|
    ensures SkipSpace([c] + t, i + 1) == SkipSpace(t, i) + 1
    decreases |t| - i
  {
    if i < |t| && IsSpace(t[i]) {
      SkipSpaceShift(c, t, i + 1);
    }
  }

  lemma {:induction false} RunEndShift(c: char, t: string, i: nat)
    requires i <= |t|
    ensures RunEnd([c] + t, i + 1) == RunEnd(t, i) + 1
    decreases |t| - i
  {
    if i < |t| && IsDigit(t[i]) {
      RunEndShift(c, t, i + 1);
    }
  }

  lemma ReadIntShift(c: char, t: string, i: nat)
    requires i <= |t|
    ensures ReadInt([c] + t, i + 1)
         == if ReadInt(t, i).None? then None else Some((ReadInt(t, i).value.0, ReadInt(t, i).value.1 + 1))
  {
    hide SkipSpace, RunEnd, Digits, Value;
    SkipSpaceShift(c, t, i);
    var j := SkipSpace(t, i);
    var k := if At(t, j) == '+' || At(t, j) == '-' then j + 1 else j;
    assert At([c] + t, j + 1) == At(t, j);
    RunEndShift(c, t, k);
    assert ([c] + t)[k + 1..RunEnd(t, k) + 1] == t[k..RunEnd(t, k)];
  }

  lemma ExponentShift(c: char, t: string, i: nat)
    requires i <= |t|
    ensures ParseExponent([c] + t, i + 1)
         == if ParseExponent(t, i).None? then None
            else Some((ParseExponent(t, i).value.0, ParseExponent(t, i).value.1 + 1))
  {
    hide ReadInt;
    assert At([c] + t, i + 1) == At(t, i);
    if At(t, i) == 'e' || At(t, i) == 'E' {
      ReadIntShift(c, t, i + 1);
    }
  }

  /** The same parts with a sign in front of them. */
  function Signed(n: Syntax, negative: bool): Syntax {
    match n
    case Malformed => Malformed
    case Special(number) => Special(if number.Infinity? then Infinity(negative) else number)
    case Numeral(_, _, digits, point, fraction, exponent) => Numeral(negative, true, digits, point, fraction, exponent)
  }

  lemma ParseSigned(c: char, t: string)
    requires (c == '+' || c == '-') && (t == "" || (t[0] != '+' && t[0] != '-'))
    ensures Parse([c] + t, -1) == Signed(Parse(t, -1), c == '-')
    ensures Parse(t, -1).Numeral? ==> !Parse(t, -1).signed && !Parse(t, -1).negative
    ensures Parse(t, -1).Special? ==> Parse(t, -1).number != Infinity(true) && !Parse(t, -1).number.Finite?
  {
    hide ParseNumeral, EqualFold;
    var text := [c] + t;
    assert At(text, 1) == At(t, 0) && text[1..] == t && t[0..] == t;
    NumeralSigned(c, t);
  }

  lemma NumeralSigned(c: char, t: string)
    ensures ParseNumeral([c] + t, -1, true, c == '-') == Signed(ParseNumeral(t, -1, false, false), c == '-')
    ensures !ParseNumeral(t, -1, false, false).Special?
    ensures ParseNumeral(t, -1, false, false).Numeral? ==>
              !ParseNumeral(t, -1, false, false).signed && !ParseNumeral(t, -1, false, false).negative
  {
    hide ScanEnd, ParseExponent, Digits, Fraction, TwoPoints;
    ScanEndShift(c, t, 0);
    var end := ScanEnd(t, 0, |t|);
    ExponentShift(c, t, end);
    assert ([c] + t)[1..end + 1] == t[0..end];
  }

  // ---- the rest of the parser looks at the significand only ----

  /** Two texts with the same characters, `shift` positions apart. */
  predicate Alike(t1: string, t2: string, shift: nat, length: nat) {
    forall p :: 0 <= p < length ==> At(t1, p + shift) == At(t2, p)
  }

  lemma {:induction false} SignificantAlike(t1: string, t2: string, shift: nat, length: nat, base: nat, count: nat)
    requires Alike(t1, t2, shift, length) && base + count <= length
    ensures Significant(t1, base + shift, count) == Significant(t2, base, count)
  {
    if count > 0 && At(t2, base + count - 1) == '0' {
      SignificantAlike(t1, t2, shift, length, base, count - 1);
    }
  }

  lemma NormaliseAlike(t1: string, t2: string, shift: nat, length: nat, digits: seq<Digit>, x: int, offset: nat)
    requires Alike(t1, t2, shift, length) && |digits| + offset <= length
    ensures Normalise(digits, x, t1, offset + shift) == Normalise(digits, x, t2, offset)
  {
    var low, high := MAX_DIGITS + offset, |digits| + offset;
    if exists p :: low <= p < high && At(t2, p) != '0' {
      var p :| low <= p < high && At(t2, p) != '0';
      assert At(t1, p + shift) != '0';
    }
    if exists p :: low + shift <= p < high + shift && At(t1, p) != '0' {
      var p :| low + shift <= p < high + shift && At(t1, p) != '0';
      assert At(t1, (p - shift) + shift) == At(t2, p - shift);
    }
  }

  function WithSign(v: Option<Number>, negative: bool): Option<Number> {
    match v
    case Some(Finite(_, c, e)) => Some(Finite(negative, c, e))
    case Some(Infinity(_)) => Some(Infinity(negative))
    case _ => v
  }

  lemma FinishAlike(t1: string, n1: Syntax, t2: string, n2: Syntax, shift: nat)
    requires n1.Numeral? && n2.Numeral? && n1.Offset() == n2.Offset() + shift
    requires n1.digits == n2.digits && n1.fraction == n2.fraction && n1.exponent == n2.exponent
    requires Alike(t1, t2, shift, |n2.digits| + n2.Offset())
    ensures Finish(t1, n1) == WithSign(Finish(t2, n2), n1.negative)
  {
    hide Strip, StartExponent, Normalise, Significant, Coefficient, Alike;
    var digits, x := Strip(n2.digits), StartExponent(n2.exponent, n2.fraction);
    var base, length := |n2.digits| - |digits| + n2.Offset(), |n2.digits| + n2.Offset();
    NormaliseAlike(t1, t2, shift, length, digits, x, n2.Offset());
    SignificantAlike(t1, t2, shift, length, base, |digits|);
    CharactersAlike(t1, t2, shift, length);
    assert |n1.digits| - |digits| + n1.Offset() == base + shift;
    var s := Normalise(digits, x, t2, n2.Offset());
    if digits != [] && s.Fit? && s.kept < Significant(t2, base, |digits|) {
      assert At(t1, base + s.kept + shift) == At(t2, base + s.kept);
    }
  }

  lemma CharactersAlike(t1: string, t2: string, shift: nat, length: nat)
    requires Alike(t1, t2, shift, length)
    ensures forall p: nat {:trigger At(t2, p)} :: p < length ==> At(t1, p + shift) == At(t2, p)
  {
  }

  // ---- the sign ----

  /** A plus sign in front of a text without a sign changes nothing; a minus sign changes the sign and nothing else. */
  lemma SignInFront(t: string)
    requires t == "" || (t[0] != '+' && t[0] != '-')
    ensures Meaning("+" + t, -1) == Meaning(t, -1)
    ensures match Meaning(t, -1)
            case None => Meaning("-" + t, -1) == None
            case Some(Finite(negative, c, e)) => !negative && Meaning("-" + t, -1) == Some(Finite(true, c, e))
            case Some(Infinity(negative)) => !negative && Meaning("-" + t, -1) == Some(Infinity(true))
            case Some(NaN) => Meaning("-" + t, -1) == Some(NaN)
  {
    SignedMeaning('+', t);
    SignedMeaning('-', t);
    assert ['+'] + t == "+" + t && ['-'] + t == "-" + t;
  }

  lemma SignedMeaning(c: char, t: string)
    requires (c == '+' || c == '-') && (t == "" || (t[0] != '+' && t[0] != '-'))
    ensures Meaning([c] + t, -1) == WithSign(Meaning(t, -1), c == '-')
    ensures Meaning(t, -1) == WithSign(Meaning(t, -1), false)
  {
    hide Parse, Finish;
    ParseSigned(c, t);
    var n := Parse(t, -1);
    if n.Numeral? {
      FinishAlike([c] + t, Signed(n, c == '-'), t, n, 1);
      FinishAlike(t, n, t, n, 0);
    }
  }

  // ---- the grammar of numerals ----

  predicate AllDigits(s: string) {
    s != "" && forall i :: 0 <= i < |s| ==> '0' <= s[i] <= '9'
  }

  predicate AllBlank(s: string) {
    forall i :: 0 <= i < |s| ==> s[i] == ' ' || '\t' <= s[i] <= '\r'
  }

  /** Blanks, an optional sign, and digits. */
  predicate IsIntegerText(s: string) {
    exists i :: 0 <= i <= |s| && AllBlank(s[..i])
      && (AllDigits(s[i..]) || (i < |s| && (s[i] == '+' || s[i] == '-') && AllDigits(s[i + 1..])))
  }

  /** Digits, at least one, and at most one point among them or at either end. */
  predicate IsSignificandText(s: string) {
    && (forall i :: 0 <= i < |s| ==> '0' <= s[i] <= '9' || s[i] == '.')
    && (exists i :: 0 <= i < |s| && '0' <= s[i] <= '9')
    && (forall i, j :: 0 <= i < j < |s| ==> s[i] != '.' || s[j] != '.')
  }

  predicate IsExponentText(s: string) {
    s == "" || ((s[0] == 'e' || s[0] == 'E') && IsIntegerText(s[1..]))
  }

  predicate IsUnsignedText(s: string) {
    exists k :: 0 <= k <= |s| && IsSignificandText(s[..k]) && IsExponentText(s[k..])
  }

  predicate IsNumeralText(s: string) {
    IsUnsignedText(s) || (s != "" && (s[0] == '+' || s[0] == '-') && IsUnsignedText(s[1..]))
  }

  lemma {:induction false} SkipSpaceIs(t: string, i: nat)
    requires i <= |t|
    ensures AllBlank(t[i..SkipSpace(t, i)])
    ensures SkipSpace(t, i) < |t| ==> !IsSpace(t[SkipSpace(t, i)])
    decreases |t| - i
  {
    if i < |t| && IsSpace(t[i]) {
      SkipSpaceIs(t, i + 1);
      assert t[i..SkipSpace(t, i)] == [t[i]] + t[i + 1..SkipSpace(t, i)];
    }
  }

  lemma {:induction false} SkipsTo(t: string, i: nat, j: nat)
    requires i <= j < |t| && AllBlank(t[i..j]) && !IsSpace(t[j])
    ensures SkipSpace(t, i) == j
    decreases j - i
  {
    if i < j {
      assert t[i] == t[i..j][0];
      assert t[i + 1..j] == t[i..j][1..];
      SkipsTo(t, i + 1, j);
    }
  }

  lemma ReadIntOnly(t: string, i: nat)
    requires i <= |t| && ReadInt(t, i).Some? && ReadInt(t, i).value.1 == |t|
    ensures IsIntegerText(t[i..])
  {
    hide Digits, Value;
    SkipSpaceIs(t, i);
    var s, m := t[i..], SkipSpace(t, i) - i;
    assert s[..m] == t[i..SkipSpace(t, i)];
    if m < |s| {
      assert s[m] == t[SkipSpace(t, i)];
      assert s[m..] == t[SkipSpace(t, i)..] && s[m + 1..] == t[SkipSpace(t, i) + 1..];
    }
  }

  lemma ReadIntWhole(t: string, i: nat, m: nat)
    requires i + m <= |t| && AllBlank(t[i..][..m])
    requires AllDigits(t[i + m..])
             || (i + m < |t| && (t[i + m] == '+' || t[i + m] == '-') && AllDigits(t[i + m + 1..]))
    ensures ReadInt(t, i).Some? && ReadInt(t, i).value.1 == |t|
    ensures var j := i + m;
            ReadInt(t, i).value.0 ==
              if AllDigits(t[j..]) then Value(Digits(t[j..]))
              else if t[j] == '-' then 0 - Value(Digits(t[j + 1..])) else Value(Digits(t[j + 1..]))
  {
    hide Digits, Value;
    var j := i + m;
    assert t[i..][..m] == t[i..j];
    if AllDigits(t[j..]) {
      assert t[j] == t[j..][0];
      SkipsTo(t, i, j);
      DigitsToEnd(t, j);
    } else {
      SkipsTo(t, i, j);
      DigitsToEnd(t, j + 1);
    }
  }

  lemma DigitsToEnd(t: string, j: nat)
    requires j <= |t| && AllDigits(t[j..])
    ensures RunEnd(t, j) == |t| && j < |t| && IsDigit(t[j]) && t[j..|t|] == t[j..]
  {
    forall i | j <= i < |t| ensures IsDigit(t[i]) {
      assert t[i] == t[j..][i - j];
    }
    RunStops(t, j);
  }

  /** Points and digits, counted by the parser or looked for one by one. */
  lemma SignificandWhen(r: string)
    requires r != "" && forall i :: 0 <= i < |r| ==> InSignificand(r[i])
    ensures IsSignificandText(r) <==> !TwoPoints(r) && !('.' in r && Digits(r) == [])
  {
    if !TwoPoints(r) {
      DigitPositions(r);
      if '.' in r && |r| > 1 {
        assert r[0] != '.' || r[1] != '.';
        assert IsDigit(r[0]) || IsDigit(r[1]);
      } else if '.' !in r {
        assert IsDigit(r[0]);
      } else {
        assert r[0] == '.';
      }
    }
  }

  lemma ExponentOnly(t: string, k: nat)
    requires k <= |t| && ParseExponent(t, k).Some? && ParseExponent(t, k).value.1 == |t|
    ensures IsExponentText(t[k..])
  {
    hide IsIntegerText, ReadInt;
    if At(t, k) == 'e' || At(t, k) == 'E' {
      ReadIntOnly(t, k + 1);
      assert t[k..][0] == t[k] && t[k..][1..] == t[k + 1..];
    }
  }

  lemma IntegerWhole(t: string, i: nat)
    requires i <= |t| && IsIntegerText(t[i..])
    ensures ReadInt(t, i).Some? && ReadInt(t, i).value.1 == |t|
  {
    hide ReadInt;
    var s := t[i..];
    var m :| 0 <= m <= |s| && AllBlank(s[..m])
      && (AllDigits(s[m..]) || (m < |s| && (s[m] == '+' || s[m] == '-') && AllDigits(s[m + 1..])));
    assert s[m..] == t[i + m..];
    if m < |s| {
      assert s[m] == t[i + m] && s[m + 1..] == t[i + m + 1..];
    }
    ReadIntWhole(t, i, m);
  }

  lemma ExponentWhole(t: string, k: nat)
    requires k <= |t| && IsExponentText(t[k..])
    ensures ParseExponent(t, k).Some? && ParseExponent(t, k).value.1 == |t|
    ensures k < |t| ==> t[k] == 'e' || t[k] == 'E'
  {
    hide ReadInt, IsIntegerText;
    if k < |t| {
      assert t[k..][0] == t[k] && t[k..][1..] == t[k + 1..];
      IntegerWhole(t, k + 1);
    }
  }

  lemma UnsignedOnly(t: string)
    requires ParseNumeral(t, -1, false, false).Numeral? && InSignificand(At(t, 0))
    ensures IsUnsignedText(t)
  {
    hide ParseExponent, Digits, Fraction, IsSignificandText, IsExponentText;
    var k := ScanEnd(t, 0, |t|);
    assert t[..k] == t[0..k];
    SignificandWhen(t[..k]);
    ExponentOnly(t, k);
  }

  lemma UnsignedWhole(t: string, k: nat)
    requires k <= |t| && IsSignificandText(t[..k]) && IsExponentText(t[k..])
    ensures InSignificand(At(t, 0)) && ParseExponent(t, k).Some?
    ensures ParseNumeral(t, -1, false, false)
         == Numeral(false, false, Digits(t[..k]), '.' in t[..k], Fraction(t[..k]), ParseExponent(t, k).value.0)
  {
    hide ParseExponent, Digits, Fraction, IsExponentText, TwoPoints;
    ExponentWhole(t, k);
    SignificandOfText(t, k);
    assert t[..k] == t[0..k];
    ScanStops(t, 0, k);
    SignificandWhen(t[..k]);
  }

  lemma SignificandOfText(t: string, k: nat)
    requires k <= |t| && IsSignificandText(t[..k])
    ensures k > 0 && forall i :: 0 <= i < k ==> InSignificand(t[i]) && t[..k][i] == t[i]
  {
    assert forall i :: 0 <= i < k ==> t[..k][i] == t[i];
  }

  lemma UnsignedWhen(t: string)
    ensures IsUnsignedText(t) <==> ParseNumeral(t, -1, false, false).Numeral? && InSignificand(At(t, 0))
  {
    hide ParseNumeral, IsSignificandText, IsExponentText;
    if ParseNumeral(t, -1, false, false).Numeral? && InSignificand(At(t, 0)) {
      UnsignedOnly(t);
    }
    if IsUnsignedText(t) {
      var k :| 0 <= k <= |t| && IsSignificandText(t[..k]) && IsExponentText(t[k..]);
      UnsignedWhole(t, k);
    }
  }

  /** A text is scanned as a numeral exactly when it is an optional sign, a significand, and an optional exponent. */
  lemma NumeralWhen(text: string)
    ensures Parse(text, -1).Numeral? <==> IsNumeralText(text)
  {
    hide ParseNumeral, IsUnsignedText, EqualFold;
    UnsignedWhen(text);
    if text != "" && (text[0] == '+' || text[0] == '-') {
      UnsignedWhen(text[1..]);
      assert text == [text[0]] + text[1..];
      NumeralSigned(text[0], text[1..]);
      assert At(text, 1) == At(text[1..], 0);
    }
  }

  // ---- what the parts mean ----

  /** The digit a character stands for. */
  lemma DigitCharacters(c: char)
    ensures IsDigit(c) <==> '0' <= c <= '9'
    ensures '0' <= c <= '9' ==> DigitOf(c) == c as int - 48
  {
  }

  lemma TextAllDigits(ds: seq<Digit>)
    requires ds != []
    ensures AllDigits(Text(ds))
  {
    TextIsDigits(ds);
    hide Text;
  }

  lemma SignificandOfRegion(whole: seq<Digit>, fraction: seq<Digit>, point: bool)
    requires whole + fraction != [] && (!point ==> fraction == [])
    ensures IsSignificandText(Region(whole, fraction, point))
  {
    var r := Region(whole, fraction, point);
    RegionCharacters(whole, fraction, point);
    RegionDigits(whole, fraction, point);
    RegionPoints(whole, fraction, point);
    hide Region, Digits;
    SignificandWhen(r);
  }

  lemma BareInteger(front: string, blanks: string, d: string)
    requires AllBlank(blanks) && AllDigits(d)
    ensures IsIntegerText(blanks + d)
    ensures ReadInt(front + (blanks + d), |front|) == Some((Value(Digits(d)), |front + (blanks + d)|))
  {
    hide Value, Digits, ReadInt, AllDigits, AllBlank;
    var s, t := blanks + d, front + (blanks + d);
    assert t[|front|..] == s && s[..|blanks|] == blanks && s[|blanks|..] == d && t[|front| + |blanks|..] == d;
    ReadIntWhole(t, |front|, |blanks|);
  }

  lemma SignIsNoDigit(c: char, d: string)
    requires c == '+' || c == '-'
    ensures !AllDigits([c] + d)
  {
    assert ([c] + d)[0] == c;
  }

  lemma SignedInteger(front: string, blanks: string, c: char, d: string)
    requires AllBlank(blanks) && AllDigits(d) && (c == '+' || c == '-')
    ensures IsIntegerText(blanks + ([c] + d))
    ensures var t := front + (blanks + ([c] + d));
            ReadInt(t, |front|) == Some((if c == '-' then 0 - Value(Digits(d)) else Value(Digits(d)), |t|))
  {
    hide Value, Digits, ReadInt, AllDigits, AllBlank;
    var s, m, i := blanks + ([c] + d), |blanks|, |front|;
    var t := front + s;
    SignIsNoDigit(c, d);
    assert t[i..] == s && s[..m] == blanks && s[m] == c && s[m + 1..] == d;
    assert t[i + m..] == [c] + d && t[i + m] == c && t[i + m + 1..] == d;
    ReadIntWhole(t, i, m);
  }

  lemma IntegerOf(front: string, blanks: string, sign: string, d: string)
    requires AllBlank(blanks) && AllDigits(d) && (sign == "" || sign == "+" || sign == "-")
    ensures IsIntegerText(blanks + (sign + d))
    ensures var t := front + (blanks + (sign + d));
            ReadInt(t, |front|) == Some((if sign == "-" then 0 - Value(Digits(d)) else Value(Digits(d)), |t|))
  {
    hide Value, Digits, ReadInt, AllDigits, AllBlank, IsIntegerText;
    if sign == "" {
      assert sign + d == d;
      BareInteger(front, blanks, d);
    } else {
      assert sign == [sign[0]];
      SignedInteger(front, blanks, sign[0], d);
    }
  }

  /** `e`, blanks, a sign and digits behind the significand are the exponent. */
  lemma ExponentOf(r: string, e: char, blanks: string, sign: string, ds: seq<Digit>)
    requires (e == 'e' || e == 'E') && AllBlank(blanks) && ds != []
    requires sign == "" || sign == "+" || sign == "-"
    ensures var t := r + ([e] + (blanks + (sign + Text(ds))));
            && IsExponentText(t[|r|..])
            && ParseExponent(t, |r|) == Some((if sign == "-" then 0 - Value(ds) else Value(ds), |t|))
  {
    hide Text, Digits, Value, ReadInt, IsIntegerText;
    TextAllDigits(ds);
    DigitsOfText(ds);
    var s := blanks + (sign + Text(ds));
    var t := r + ([e] + s);
    IntegerOf(r + [e], blanks, sign, Text(ds));
    assert t == (r + [e]) + s;
    assert t[|r|..] == [e] + s && ([e] + s)[1..] == s && At(t, |r|) == e;
  }

  /** A significand and an exponent mean the digits written, and the number behind the sign of the exponent. */
  lemma NumeralParts(whole: seq<Digit>, fraction: seq<Digit>, point: bool, e: char, blanks: string, sign: string,
                     ds: seq<Digit>)
    requires whole + fraction != [] && (!point ==> fraction == [])
    requires (e == 'e' || e == 'E') && AllBlank(blanks) && ds != []
    requires sign == "" || sign == "+" || sign == "-"
    ensures Parse(Region(whole, fraction, point) + ([e] + (blanks + (sign + Text(ds)))), -1)
         == Numeral(false, false, whole + fraction, point, |fraction|, if sign == "-" then 0 - Value(ds) else Value(ds))
  {
    hide Region, Text, Value, Digits, Fraction, ParseNumeral;
    hide IsSignificandText, IsExponentText, AllBlank, ParseExponent;
    var r := Region(whole, fraction, point);
    var t := r + ([e] + (blanks + (sign + Text(ds))));
    SignificandOfRegion(whole, fraction, point);
    RegionDigits(whole, fraction, point);
    RegionPoints(whole, fraction, point);
    ExponentOf(r, e, blanks, sign, ds);
    assert t[..|r|] == r;
    UnsignedWhole(t, |r|);
    SignificandStarts(t);
  }

  /** Without an exponent it is zero; a point may stand in front of all digits. */
  lemma NumeralWithoutExponent(whole: seq<Digit>, fraction: seq<Digit>, point: bool)
    requires whole + fraction != [] && (!point ==> fraction == [])
    ensures Parse(Region(whole, fraction, point), -1)
         == Numeral(false, false, whole + fraction, point, |fraction|, 0)
  {
    hide Region, Digits, Fraction, ParseNumeral, IsSignificandText, IsIntegerText, ReadInt;
    var r := Region(whole, fraction, point);
    SignificandOfRegion(whole, fraction, point);
    RegionDigits(whole, fraction, point);
    RegionPoints(whole, fraction, point);
    assert r[..|r|] == r && r[|r|..] == "";
    UnsignedWhole(r, |r|);
    SignificandStarts(r);
  }

  lemma SignificandStarts(t: string)
    requires InSignificand(At(t, 0))
    ensures Parse(t, -1) == ParseNumeral(t, -1, false, false)
  {
    hide ParseNumeral, ParseSpecial;
  }

  // ---- the length ----

  lemma {:induction false} ScanWithin(t: string, start: nat, end: nat, limit: int)
    requires start <= end <= |t| && end <= limit
    requires forall i :: start <= i < end ==> InSignificand(t[i])
    requires end < |t| ==> !InSignificand(t[end]) || limit == end
    ensures ScanEnd(t, start, limit) == end
    decreases end - start
  {
    if start < end {
      ScanWithin(t, start + 1, end, limit);
    }
  }

  /** A text in its parts: an optional sign, characters of a significand, and the rest. */
  predicate Consists(t: string, sign: string, r: string, rest: string) {
    && t == sign + (r + rest) && (sign == "" || sign == "+" || sign == "-")
    && r != "" && forall i :: 0 <= i < |r| ==> '0' <= r[i] <= '9' || r[i] == '.'
  }

  lemma ConsistsPositions(t: string, sign: string, r: string, rest: string)
    requires Consists(t, sign, r, rest)
    ensures var k := |sign|;
            && k + |r| <= |t| && t[k..k + |r|] == r && t[k + |r|..] == rest && InSignificand(At(t, k))
            && (rest != "" ==> k + |r| < |t| && t[k + |r|] == rest[0])
            && (forall i :: k <= i < k + |r| ==> InSignificand(t[i]))
            && (At(t, 0) == '+' || At(t, 0) == '-' <==> sign != "") && (At(t, 0) == '-' <==> sign == "-")
  {
    var k := |sign|;
    assert forall i :: 0 <= i < |r| ==> t[k + i] == r[i];
    assert At(t, 0) == if sign == "" then r[0] else sign[0];
  }

  /** The parts once it is known where the significand `r` ends, and the exponent. */
  function Assembled(t: string, len: int, sign: string, r: string, exponent: Option<(int, nat)>): Syntax {
    if TwoPoints(r) || ('.' in r && Digits(r) == []) || exponent.None? then Malformed
    else if (len == -1 || exponent.value.1 < len) && exponent.value.1 < |t| then Malformed
    else Numeral(sign == "-", sign != "", Digits(r), '.' in r, Fraction(r), exponent.value.0)
  }

  lemma ParseAssembled(t: string, len: int, sign: string, r: string, rest: string)
    requires Consists(t, sign, r, rest) && |sign + r| <= |t|
    requires ScanEnd(t, |sign|, if len == -1 then |t| else len) == |sign + r|
    ensures Parse(t, len) == Assembled(t, len, sign, r, ParseExponent(t, |sign + r|))
  {
    ConsistsPositions(t, sign, r, rest);
    hide Digits, Fraction, TwoPoints, ParseExponent, ParseSpecial, ScanEnd, Consists;
  }

  /** A length that does not cut the significand changes nothing: the exponent is read beyond it. */
  lemma LengthBehindSignificand(t: string, sign: string, r: string, rest: string, len: int)
    requires Consists(t, sign, r, rest) && IsExponentText(rest) && |sign + r| <= len
    ensures Parse(t, len) == Parse(t, -1)
  {
    hide Parse, Consists, IsExponentText, ParseExponent;
    var k := |sign|;
    ConsistsPositions(t, sign, r, rest);
    ExponentWhole(t, k + |r|);
    ScanWithin(t, k, k + |r|, len);
    ScanWithin(t, k, k + |r|, |t|);
    ParseAssembled(t, len, sign, r, rest);
    ParseAssembled(t, -1, sign, r, rest);
  }

  lemma CutParse(t: string, sign: string, r: string, rest: string)
    requires Consists(t, sign, r, rest) && (rest == "" || (rest[0] != 'e' && rest[0] != 'E'))
    ensures Consists(sign + r, sign, r, "") && Parse(t, |sign + r|) == Parse(sign + r, -1)
    ensures Parse(sign + r, -1).Numeral? ==>
              var n := Parse(sign + r, -1); |n.digits| + n.Offset() <= |sign + r|
  {
    hide Parse, ScanEnd, Digits, TwoPoints, Fraction, ParseSpecial;
    var k, u := |sign|, sign + r;
    var len := k + |r|;
    assert u == sign + (r + "");
    ConsistsPositions(t, sign, r, rest);
    ConsistsPositions(u, sign, r, "");
    hide Consists;
    ScanWithin(t, k, len, len);
    ScanWithin(u, k, len, len);
    ParseAssembled(t, len, sign, r, rest);
    ParseAssembled(u, -1, sign, r, "");
    assert At(t, len) == if rest == "" then '\0' else rest[0];
    RegionSize(r);
  }

  /** A length that ends the significand cuts the text there, unless an exponent follows. */
  lemma LengthCuts(t: string, sign: string, r: string, rest: string)
    requires Consists(t, sign, r, rest) && (rest == "" || (rest[0] != 'e' && rest[0] != 'E'))
    ensures Meaning(t, |sign + r|) == Meaning(sign + r, -1)
  {
    hide Parse, Finish;
    var u := sign + r;
    CutParse(t, sign, r, rest);
    var n := Parse(u, -1);
    if n.Numeral? {
      AlikeToEnd(t, u, sign, r, rest);
      FinishAlike(t, n, u, n, 0);
      FinishAlike(u, n, u, n, 0);
    }
  }

  lemma AlikeToEnd(t: string, u: string, sign: string, r: string, rest: string)
    requires t == sign + (r + rest) && u == sign + r
    ensures Alike(t, u, 0, |u|)
  {
    assert t == u + rest;
  }

  lemma RegionSize(r: string)
    ensures !TwoPoints(r) ==> |Digits(r)| + (if '.' in r then 1 else 0) <= |r|
  {
    if !TwoPoints(r) {
      DigitPositions(r);
    }
  }

  lemma NoDigits()
    ensures Digits("") == [] && Fraction("") == 0 && !TwoPoints("") && Strip([]) == []
  {
  }

  lemma ParseNothing(t: string)
    requires t != "" && ('0' <= t[0] <= '9' || t[0] == '.')
    ensures Parse(t, 0) == Numeral(false, false, [], false, 0, 0)
  {
    hide ScanEnd, Digits, Fraction, TwoPoints, ReadInt, ParseSpecial;
    NoDigits();
    ScanWithin(t, 0, 0, 0);
    assert t[0..0] == "";
  }

  /** A length of zero leaves no digits, which is read as zero. */
  lemma LengthZero(t: string)
    requires t != "" && ('0' <= t[0] <= '9' || t[0] == '.')
    ensures Meaning(t, 0) == Some(Finite(false, 0, 0))
  {
    hide Parse, Normalise, Significant, Coefficient, Strip;
    ParseNothing(t);
    NoDigits();
    assert StartExponent(0, 0) == 0;
  }

  // ---- the words ----

  /** A word in any mixture of its small and capital letters. */
  predicate IsWord(t: string, small: string, capital: string)
    requires |small| == |capital|
  {
    |t| == |small| && forall i :: 0 <= i < |t| ==> t[i] == small[i] || t[i] == capital[i]
  }

  lemma FoldIsWord(t: string, small: string, capital: string)
    requires |small| == |capital|
    requires forall i :: 0 <= i < |small| ==> 'a' <= small[i] <= 'z' && capital[i] as int + 32 == small[i] as int
    ensures EqualFold(t, small) <==> IsWord(t, small, capital)
  {
    forall i | 0 <= i < |small| && i < |t|
      ensures Lower(t[i]) == Lower(small[i]) <==> t[i] == small[i] || t[i] == capital[i]
    {
    }
    if EqualFold(t, small) {
      forall i | 0 <= i < |t| ensures t[i] == small[i] || t[i] == capital[i] {
        assert Lower(t[i]) == Lower(small[i]);
      }
    }
  }

  /** The words that are accepted, without a sign; every other text that does not start like a numeral is refused. */
  lemma WordsWhen(t: string)
    requires t == "" || !('0' <= t[0] <= '9' || t[0] == '.' || t[0] == '+' || t[0] == '-')
    ensures Meaning(t, -1)
         == if IsWord(t, "inf", "INF") || IsWord(t, "infinity", "INFINITY") then Some(Infinity(false))
            else if IsWord(t, "nan", "NAN") then Some(NaN)
            else None
  {
    FoldIsWord(t, "inf", "INF");
    FoldIsWord(t, "infinity", "INFINITY");
    FoldIsWord(t, "nan", "NAN");
    hide EqualFold, IsWord;
    assert t[0..] == t;
  }
}
