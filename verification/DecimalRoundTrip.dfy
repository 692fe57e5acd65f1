/** Parsing a printed number gives the number back. */
module DecimalRoundTrip {
  import opened Common
  import opened DecimalDigits
  import opened Decimal128
  import opened DecimalPrint
  import opened DecimalSyntax

  // ---- the text of digits ----

  lemma {:induction false} TextIsDigits(ds: seq<Digit>)
    ensures forall i :: 0 <= i < |ds| ==> IsDigit(Text(ds)[i]) && DigitOf(Text(ds)[i]) == ds[i]
  {
    if ds != [] {
      var front := ds[..|ds| - 1];
      TextIsDigits(front);
      assert forall i :: 0 <= i < |front| ==> Text(ds)[i] == Text(front)[i] && ds[i] == front[i];
    }
  }

  lemma {:induction false} DigitsAppendText(r: string, ds: seq<Digit>)
    ensures Digits(r + Text(ds)) == Digits(r) + ds
    ensures Fraction(r + Text(ds)) == if '.' in r then Fraction(r) + |ds| else 0
  {
    if ds == [] {
      assert r + Text(ds) == r;
      if '.' !in r { NoFraction(r); }
    } else {
      var front := ds[..|ds| - 1];
      var s := r + Text(front);
      var ch := DigitChar(ds[|ds| - 1]);
      DigitsAppendText(r, front);
      TextIsDigits(front);
      assert r + Text(ds) == s + [ch];
      assert (s + [ch])[..|s|] == s;
      assert DigitOf(ch) == ds[|ds| - 1] && ch != '.';
      assert front + [ds[|ds| - 1]] == ds;
      if '.' !in r { NoFraction(s + [ch]); }
    }
  }

  /** The significand part of a text. */
  function Region(whole: seq<Digit>, fraction: seq<Digit>, point: bool): string {
    Text(whole) + if point then "." + Text(fraction) else ""
  }

  lemma DigitsOfText(ds: seq<Digit>)
    ensures Digits(Text(ds)) == ds
  {
    assert "" + Text(ds) == Text(ds);
    DigitsAppendText("", ds);
  }

  lemma AppendPoint(r: string)
    requires '.' !in r
    ensures Digits(r + ".") == Digits(r) && Fraction(r + ".") == 0
  {
    assert (r + ".")[..|r|] == r;
  }

  lemma RegionDigits(whole: seq<Digit>, fraction: seq<Digit>, point: bool)
    requires !point ==> fraction == []
    ensures Digits(Region(whole, fraction, point)) == whole + fraction
    ensures Fraction(Region(whole, fraction, point)) == |fraction|
  {
    hide Text, Digits, Fraction;
    var w := Text(whole);
    DigitsOfText(whole);
    TextIsDigits(whole);
    NoFraction(w);
    if point {
      var wp := w + ".";
      AppendPoint(w);
      DigitsAppendText(wp, fraction);
      assert Region(whole, fraction, point) == wp + Text(fraction);
    } else {
      assert Region(whole, fraction, point) == w;
    }
  }

  lemma RegionCharacters(whole: seq<Digit>, fraction: seq<Digit>, point: bool)
    ensures var r := Region(whole, fraction, point);
            && (forall i :: 0 <= i < |r| ==> InSignificand(r[i]) && (r[i] == '.' <==> point && i == |whole|))
    ensures |Region(whole, fraction, point)| == |whole| + if point then 1 + |fraction| else 0
  {
    TextIsDigits(whole);
    TextIsDigits(fraction);
  }

  lemma RegionPoints(whole: seq<Digit>, fraction: seq<Digit>, point: bool)
    ensures var r := Region(whole, fraction, point); !TwoPoints(r) && ('.' in r) == point
  {
    RegionCharacters(whole, fraction, point);
    if point {
      assert Region(whole, fraction, point)[|whole|] == '.';
    }
  }

  // ---- scanning a printed text ----

  lemma ScanStops(text: string, start: nat, end: nat)
    requires start <= end <= |text|
    requires forall i :: start <= i < end ==> InSignificand(text[i])
    requires end < |text| ==> !InSignificand(text[end])
    ensures ScanEnd(text, start, |text|) == end
  {
  }

  lemma RunStops(text: string, start: nat)
    requires start <= |text| && forall i :: start <= i < |text| ==> IsDigit(text[i])
    ensures RunEnd(text, start) == |text|
  {
  }

  lemma ReadSigned(text: string, at: nat, x: int)
    requires at <= |text| && text[at..] == SignedText(x)
    ensures ReadInt(text, at) == Some((x, |text|))
  {
    hide SignedText, Text, Shortest, Value, Digits, RunEnd;
    var ds := Shortest(if x < 0 then -x else x);
    SignedCharacters(text, at, x, ds);
    RunStops(text, at + 1);
    DigitsOfText(ds);
    ValueOfShortest(if x < 0 then -x else x);
    assert text[at + 1..|text|] == Text(ds);
    assert |ds| > 0 && SkipSpace(text, at) == at;
  }

  lemma SignedCharacters(text: string, at: nat, x: int, ds: seq<Digit>)
    requires at <= |text| && text[at..] == SignedText(x)
    requires ds == Shortest(if x < 0 then -x else x)
    ensures at < |text| && text[at] == if x < 0 then '-' else '+'
    ensures text[at + 1..] == Text(ds)
    ensures forall i :: at < i < |text| ==> IsDigit(text[i])
  {
    TextIsDigits(ds);
    var rest := text[at..];
    assert rest == [if x < 0 then '-' else '+'] + Text(ds);
    assert text[at] == rest[0];
    assert text[at + 1..] == rest[1..];
    forall i | at < i < |text| ensures IsDigit(text[i]) {
      assert text[i] == text[at + 1..][i - at - 1];
    }
  }

  function Sign(negative: bool): string {
    if negative then "-" else ""
  }

  function Tail(exponent: Option<int>): string {
    match exponent
    case None => ""
    case Some(x) => "E" + SignedText(x)
  }

  lemma ParseTail(text: string, end: nat, exponent: Option<int>)
    requires end <= |text| && text[end..] == Tail(exponent)
    ensures ParseExponent(text, end) == Some((if exponent.Some? then exponent.value else 0, |text|))
    ensures end < |text| ==> !InSignificand(text[end])
  {
    if exponent.Some? {
      assert text[end] == text[end..][0];
      assert text[end + 1..] == text[end..][1..];
      assert text[end..][1..] == SignedText(exponent.value);
      ReadSigned(text, end + 1, exponent.value);
    }
  }

  /** Where the parts of a printed text lie. */
  lemma LayoutPositions(text: string, sign: string, region: string, tail: string)
    requires text == sign + region + tail && region != ""
    requires forall i :: 0 <= i < |region| ==> InSignificand(region[i])
    ensures |sign| + |region| <= |text| && text[|sign|..|sign| + |region|] == region
    ensures text[|sign| + |region|..] == tail
    ensures forall i :: |sign| <= i < |sign| + |region| ==> InSignificand(text[i])
    ensures At(text, 0) == if sign == "" then region[0] else sign[0]
  {
    forall i | |sign| <= i < |sign| + |region| ensures InSignificand(text[i]) {
      assert text[i] == region[i - |sign|];
    }
  }

  lemma ParsePositions(text: string, negative: bool, region: string, exponent: Option<int>)
    requires var start := if negative then 1 else 0;
             && 0 < |region| && start + |region| <= |text| && text[start..start + |region|] == region
             && text[start + |region|..] == Tail(exponent)
             && forall i :: start <= i < start + |region| ==> InSignificand(text[i])
    requires At(text, 0) != '+' && (At(text, 0) == '-') == negative
    requires !TwoPoints(region) && Digits(region) != []
    ensures Parse(text, -1)
         == Numeral(negative, negative, Digits(region), '.' in region, Fraction(region),
                    if exponent.Some? then exponent.value else 0)
  {
    hide Tail, ReadInt, ScanEnd, Digits, Fraction, TwoPoints;
    var start := if negative then 1 else 0;
    var end := start + |region|;
    ParseTail(text, end, exponent);
    ScanStops(text, start, end);
    assert InSignificand(At(text, start));
  }

  /** A sign, a significand and an optional exponent are scanned into exactly these parts. */
  lemma ParseLayout(text: string, negative: bool, whole: seq<Digit>, fraction: seq<Digit>, point: bool,
                    exponent: Option<int>)
    requires whole != [] && (!point ==> fraction == [])
    requires text == Sign(negative) + Region(whole, fraction, point) + Tail(exponent)
    ensures Parse(text, -1)
         == Numeral(negative, negative, whole + fraction, point, |fraction|,
                    if exponent.Some? then exponent.value else 0)
  {
    var region := Region(whole, fraction, point);
    RegionCharacters(whole, fraction, point);
    hide Region, Digits, Fraction, Tail, TwoPoints, Parse;
    LayoutPositions(text, Sign(negative), region, Tail(exponent));
    RegionDigits(whole, fraction, point);
    RegionPoints(whole, fraction, point);
    ParsePositions(text, negative, region, exponent);
  }

  // ---- the round trip ----

  lemma StartExponentOfPrinted(exponent: int, fraction: nat)
    requires -7000 < exponent < 7000 && fraction < 7000
    ensures StartExponent(exponent, fraction) == exponent - fraction
  {
  }

  /** Parsed parts that spell a representable number are accepted as that number. */
  lemma FinishPrinted(text: string, negative: bool, c: nat, e: int, all: seq<Digit>, point: bool, fraction: nat,
                      exponent: int)
    requires Representable(Finite(negative, c, e))
    requires Strip(all) == (if c == 0 then [] else Shortest(c))
    requires exponent - fraction == e && -7000 < exponent < 7000 && fraction < 7000
    ensures var n := Numeral(negative, negative, all, point, fraction, exponent);
            Finish(text, n) == Some(Finite(negative, c, e)) && !ReadsPastDigits(n)
  {
    StartExponentOfPrinted(exponent, fraction);
    var n := Numeral(negative, negative, all, point, fraction, exponent);
    if c > 0 {
      Pow10Of34();
      ShortestLength(c, 34);
      ValueOfShortest(c);
      var ds := Shortest(c);
      NothingToNormalise(ds, e, text, n.Offset());
      WholeCoefficient(ds);
      hide Normalise, Coefficient, Shortest, Value, Pow10, StartExponent, Strip;
      assert ds[..|ds|] == ds;
    }
  }

  lemma NothingToNormalise(ds: seq<Digit>, e: int, text: string, offset: nat)
    requires 0 < |ds| <= MAX_DIGITS && EXPONENT_MIN <= e <= EXPONENT_MAX
    ensures Normalise(ds, e, text, offset) == Fit(|ds|, 0, e)
  {
  }


  predicate ReadsBack(text: string, v: Number) {
    Meaning(text, -1) == Some(v) && InDomain(text, -1)
  }

  lemma Concat3(a: string, b: string, c: string)
    ensures a + (b + c) == a + b + c
  {
  }

  /** A printed layout whose digits and exponent spell a number is read back as that number. */
  lemma ReadLayout(body: string, negative: bool, c: nat, e: int,
                   whole: seq<Digit>, fraction: seq<Digit>, point: bool, exponent: Option<int>)
    requires Representable(Finite(negative, c, e))
    requires whole != [] && (!point ==> fraction == [])
    requires body == Region(whole, fraction, point) + Tail(exponent)
    requires Strip(whole + fraction) == (if c == 0 then [] else Shortest(c))
    requires |whole| + |fraction| < 7000
    requires exponent.Some? ==> -7000 < exponent.value < 7000
    requires (if exponent.Some? then exponent.value else 0) - |fraction| == e
    ensures ReadsBack(Sign(negative) + body, Finite(negative, c, e))
  {
    hide Finish, Parse, Region, Tail, Sign, Strip, Shortest, ReadsPastDigits;
    var text := Sign(negative) + body;
    Concat3(Sign(negative), Region(whole, fraction, point), Tail(exponent));
    var x := if exponent.Some? then exponent.value else 0;
    ParseLayout(text, negative, whole, fraction, point, exponent);
    FinishPrinted(text, negative, c, e, whole + fraction, point, |fraction|, x);
    PlainText(text, negative, whole, fraction, point, exponent);
  }

  lemma PlainText(text: string, negative: bool, whole: seq<Digit>, fraction: seq<Digit>, point: bool,
                  exponent: Option<int>)
    requires text == Sign(negative) + Region(whole, fraction, point) + Tail(exponent)
    requires |whole| + |fraction| < 7000
    requires exponent.Some? ==> -7000 < exponent.value < 7000
    ensures '\0' !in text && |text| < 8000
  {
    PlainRegion(whole, fraction, point);
    PlainTail(exponent);
    hide Region, Tail;
  }

  lemma PlainRegion(whole: seq<Digit>, fraction: seq<Digit>, point: bool)
    ensures '\0' !in Region(whole, fraction, point) && |Region(whole, fraction, point)| <= |whole| + 1 + |fraction|
  {
    RegionCharacters(whole, fraction, point);
    hide Region;
  }

  lemma PlainTail(exponent: Option<int>)
    requires exponent.Some? ==> -7000 < exponent.value < 7000
    ensures '\0' !in Tail(exponent) && |Tail(exponent)| <= 6
  {
    if exponent.Some? {
      TextIsDigits(Shortest(if exponent.value < 0 then -exponent.value else exponent.value));
      SignedTextIsShort(exponent.value);
      hide Text, Shortest;
    }
  }

  lemma StripShortest(c: nat)
    ensures Strip(Shortest(c)) == if c == 0 then [] else Shortest(c)
  {
    ValueOfShortest(c);
    if c == 0 {
      assert [0][1..] == [];
    }
  }

  lemma DigitCount(c: nat)
    requires c < TEN_34
    ensures 1 <= |Shortest(c)| <= 34
  {
    Pow10Of34();
    ShortestLength(c, 34);
  }

  lemma ScientificLayout(ds: seq<Digit>, e: int)
    requires ds != []
    ensures Scientific(ds, e) == Region(ds[..1], ds[1..], |ds| > 1) + Tail(Some(|ds| - 1 + e))
    ensures ds[..1] + ds[1..] == ds
  {
    hide Text, SignedText;
  }

  lemma ReadScientific(negative: bool, c: nat, e: int)
    requires Representable(Finite(negative, c, e))
    ensures ReadsBack(Sign(negative) + Scientific(Shortest(c), e), Finite(negative, c, e))
  {
    var ds := Shortest(c);
    DigitCount(c);
    StripShortest(c);
    ScientificLayout(ds, e);
    hide Scientific, Region, Tail, Sign, Shortest, Strip, ReadsBack;
    ReadLayout(Scientific(ds, e), negative, c, e, ds[..1], ds[1..], |ds| > 1, Some(|ds| - 1 + e));
  }

  lemma IntegerLayout(ds: seq<Digit>)
    ensures Text(ds) == Region(ds, [], false) + Tail(None) && ds + [] == ds
  {
    hide Text;
  }

  lemma ReadInteger(negative: bool, c: nat)
    requires Representable(Finite(negative, c, 0))
    ensures ReadsBack(Sign(negative) + Text(Shortest(c)), Finite(negative, c, 0))
  {
    var ds := Shortest(c);
    DigitCount(c);
    StripShortest(c);
    IntegerLayout(ds);
    hide Text, Region, Tail, Sign, Shortest, Strip, ReadsBack;
    ReadLayout(Text(ds), negative, c, 0, ds, [], false, None);
  }

  /** The digits in front of the radix point of a fractional layout, and behind it. */
  function Whole(ds: seq<Digit>, radix: int): seq<Digit>
    requires radix <= |ds|
  {
    if radix > 0 then ds[..radix] else [0]
  }

  function Behind(ds: seq<Digit>, radix: int): seq<Digit>
    requires radix <= |ds|
  {
    if radix > 0 then ds[radix..] else Zeros(-radix) + ds
  }

  lemma FractionalLayout(ds: seq<Digit>, e: int)
    requires e < 0 && ds != []
    ensures var radix := |ds| + e;
            && Fractional(ds, e) == Region(Whole(ds, radix), Behind(ds, radix), true) + Tail(None)
            && |Behind(ds, radix)| == -e
  {
    var radix := |ds| + e;
    if radix > 0 {
      hide Text;
      assert Fractional(ds, e) == Text(ds[..radix]) + "." + Text(ds[radix..]);
    } else {
      SmallFraction(ds, -radix);
    }
  }

  lemma TextOfZero()
    ensures Text([0]) == "0"
  {
    assert [0][..0] == [];
  }

  lemma SmallFraction(ds: seq<Digit>, zeros: nat)
    ensures "0." + Text(Zeros(zeros)) + Text(ds[0..]) == Region([0], Zeros(zeros) + ds, true)
  {
    TextOfZero();
    TextAppend(Zeros(zeros), ds);
    hide Text, Zeros;
    assert ds[0..] == ds;
  }

  lemma FractionalDigits(c: nat, radix: int)
    requires radix <= |Shortest(c)|
    ensures Strip(Whole(Shortest(c), radix) + Behind(Shortest(c), radix)) == if c == 0 then [] else Shortest(c)
  {
    var ds := Shortest(c);
    StripShortest(c);
    if radix > 0 {
      assert ds[..radix] + ds[radix..] == ds;
    } else {
      LeadingZeros(-radix, ds, c);
    }
  }

  lemma ReadFractional(negative: bool, c: nat, e: int)
    requires Representable(Finite(negative, c, e)) && e < 0
    ensures ReadsBack(Sign(negative) + Fractional(Shortest(c), e), Finite(negative, c, e))
  {
    var ds := Shortest(c);
    var radix := |ds| + e;
    DigitCount(c);
    FractionalLayout(ds, e);
    FractionalDigits(c, radix);
    var whole, fraction := Whole(ds, radix), Behind(ds, radix);
    assert whole != [] && |whole| <= 34;
    hide Fractional, Region, Tail, Sign, Shortest, Strip, ReadsBack, Whole, Behind;
    ReadLayout(Fractional(ds, e), negative, c, e, whole, fraction, true, None);
  }

  lemma {:induction false} TextAppend(a: seq<Digit>, b: seq<Digit>)
    ensures Text(a + b) == Text(a) + Text(b)
  {
    if b == [] {
      assert a + b == a;
    } else {
      assert (a + b)[..|a + b| - 1] == a + b[..|b| - 1];
      TextAppend(a, b[..|b| - 1]);
    }
  }

  lemma LeadingZeros(n: nat, ds: seq<Digit>, c: nat)
    requires ds == Shortest(c)
    ensures Strip([0] + (Zeros(n) + ds)) == if c == 0 then [] else ds
  {
    ZerosAreZero(n);
    ValueOfShortest(c);
    var all := [0] + (Zeros(n) + ds);
    if c == 0 {
      StripAt(all, |all|);
    } else {
      StripAt(all, n + 1);
    }
  }

  lemma ReadFinite(negative: bool, c: nat, e: int)
    requires Representable(Finite(negative, c, e))
    ensures ReadsBack(Render(Finite(negative, c, e)), Finite(negative, c, e))
  {
    hide ReadsBack, Scientific, Fractional, Text, Shortest;
    var ds := Shortest(c);
    if |ds| - 1 + e < -6 || e > 0 {
      ReadScientific(negative, c, e);
    } else if e == 0 {
      ReadInteger(negative, c);
    } else {
      ReadFractional(negative, c, e);
    }
  }

  lemma SpecialWords(negative: bool)
    ensures ParseSpecial("Infinity", negative) == Special(Infinity(negative))
    ensures ParseSpecial("NaN", negative) == Special(NaN)
  {
    assert Lower("NaN"[0]) != Lower("inf"[0]);
  }

  lemma ReadSpecialText(v: Number)
    requires !v.Finite?
    ensures ReadsBack(Render(v), v)
  {
    SpecialWords(v == Infinity(true));
    hide ParseSpecial, ParseNumeral, Finish;
    match v
    case Infinity(true) =>
      assert Render(v)[1..] == "Infinity";
    case Infinity(false) =>
      assert Render(v)[0..] == "Infinity";
    case NaN =>
      assert "NaN"[0..] == "NaN";
  }

  /** Every representable number: parsing its printed text gives the number back. */
  lemma PrintThenParse(v: Number)
    requires Representable(v)
    ensures Meaning(Render(v), -1) == Some(v) && InDomain(Render(v), -1)
  {
    hide Render, Meaning, InDomain;
    if v.Finite? {
      ReadFinite(v.negative, v.coefficient, v.exponent);
    } else {
      ReadSpecialText(v);
    }
  }

  /** The printed text and its terminator take at most 43 bytes. */
  lemma RenderedLength(v: Number)
    requires Representable(v)
    ensures |Render(v)| + 1 <= STRING_SIZE
  {
    if v.Finite? {
      DigitCount(v.coefficient);
      var ds := Shortest(v.coefficient);
      SignedTextIsShort(|ds| - 1 + v.exponent);
      hide Text, Shortest, SignedText, Zeros;
      assert |Unsigned(ds, v.exponent)| <= 41;
    }
  }
}
