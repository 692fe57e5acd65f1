/** What a decimal text denotes, and the outcome bson_decimal128_from_string_w_len computes for it. */
module DecimalSyntax {
  import opened Common
  import opened DecimalDigits
  import opened Decimal128

  predicate IsDigit(c: char) {
    '0' <= c <= '9'
  }

  function DigitOf(c: char): Digit {
    if IsDigit(c) then c as int - '0' as int else 0
  }

  /** The character at a position of a NUL-terminated string. */
  function At(text: string, i: int): char {
    if 0 <= i < |text| then text[i] else '\0'
  }

  function Lower(c: char): char {
    if 'A' <= c <= 'Z' then c + 32 as char else c
  }

  predicate EqualFold(a: string, b: string) {
    |a| == |b| && forall i :: 0 <= i < |a| ==> Lower(a[i]) == Lower(b[i])
  }

  // ---- the significand: digits with at most one radix point ----

  predicate InSignificand(c: char) {
    IsDigit(c) || c == '.'
  }

  /** Where the run of digits and points that starts at `i` ends. */
  function ScanEnd(text: string, i: nat, limit: int): (end: nat)
    requires i <= |text|
    ensures i <= end <= |text|
    ensures end > i ==> end <= limit
    ensures forall j :: i <= j < end ==> InSignificand(text[j])
    ensures end < |text| && end < limit ==> !InSignificand(text[end])
    decreases |text| - i
  {
    if i < |text| && i < limit && InSignificand(text[i]) then ScanEnd(text, i + 1, limit) else i
  }

  function Digits(r: string): (ds: seq<Digit>) {
    if r == "" then []
    else Digits(r[..|r| - 1]) + if r[|r| - 1] == '.' then [] else [DigitOf(r[|r| - 1])]
  }

  /** The number of digits after the radix point. */
  function Fraction(r: string): nat {
    if r == "" || '.' !in r[..|r| - 1] then 0
    else Fraction(r[..|r| - 1]) + if r[|r| - 1] == '.' then 0 else 1
  }

  lemma NoFraction(r: string)
    requires '.' !in r
    ensures Fraction(r) == 0
  {
  }

  predicate TwoPoints(r: string) {
    exists i, j :: 0 <= i < j < |r| && r[i] == '.' && r[j] == '.'
  }

  /** The position of the radix point, or of the end when there is none. */
  function PointIndex(r: string): (p: nat)
    ensures p <= |r|
  {
    if r == "" then 0
    else if '.' in r[..|r| - 1] then PointIndex(r[..|r| - 1])
    else if r[|r| - 1] == '.' then |r| - 1
    else |r|
  }

  lemma {:induction false} AboutPointIndex(r: string)
    ensures PointIndex(r) < |r| <==> '.' in r
    ensures '.' in r ==> r[PointIndex(r)] == '.'
  {
    if r != "" {
      var front := r[..|r| - 1];
      assert r == front + [r[|r| - 1]];
      AboutPointIndex(front);
    }
  }

  /** Which character each digit comes from: those behind the point are shifted by one. */
  lemma {:induction false} DigitPositions(r: string)
    requires !TwoPoints(r)
    ensures |Digits(r)| == |r| - (if '.' in r then 1 else 0)
    ensures forall k :: 0 <= k < |Digits(r)| ==> Digits(r)[k] == DigitOf(r[if k < PointIndex(r) then k else k + 1])
  {
    if r != "" {
      var front := r[..|r| - 1];
      assert r == front + [r[|r| - 1]];
      FrontHasOnePoint(r);
      DigitPositions(front);
      AboutPointIndex(front);
    }
  }

  lemma FrontHasOnePoint(r: string)
    requires r != "" && !TwoPoints(r)
    ensures !TwoPoints(r[..|r| - 1])
    ensures r[|r| - 1] == '.' ==> '.' !in r[..|r| - 1]
  {
    var front := r[..|r| - 1];
    assert forall i :: 0 <= i < |front| ==> front[i] == r[i];
  }

  // ---- the exponent: what scanf's %d reads ----

  predicate IsSpace(c: char) {
    c == ' ' || '\t' <= c <= '\r'
  }

  function SkipSpace(text: string, i: nat): (end: nat)
    requires i <= |text|
    ensures i <= end <= |text|
    decreases |text| - i
  {
    if i < |text| && IsSpace(text[i]) then SkipSpace(text, i + 1) else i
  }

  function RunEnd(text: string, i: nat): (end: nat)
    requires i <= |text|
    ensures i <= end <= |text|
    ensures forall j :: i <= j < end ==> IsDigit(text[j])
    ensures end < |text| ==> !IsDigit(text[end])
    decreases |text| - i
  {
    if i < |text| && IsDigit(text[i]) then RunEnd(text, i + 1) else i
  }

  /** The integer at a position and the position behind it. */
  function ReadInt(text: string, i: nat): (r: Option<(int, nat)>)
    requires i <= |text|
    ensures r.Some? ==> i < r.value.1 <= |text|
  {
    var j := SkipSpace(text, i);
    var k := if At(text, j) == '+' || At(text, j) == '-' then j + 1 else j;
    var end := RunEnd(text, k);
    if end == k then None
    else
      var magnitude: int := Value(Digits(text[k..end]));
      Some((if At(text, j) == '-' then -magnitude else magnitude, end))
  }

  // ---- the whole text ----

  datatype Syntax =
    | Malformed
    | Special(number: Number)
    | Numeral(negative: bool, signed: bool, digits: seq<Digit>, point: bool, fraction: nat, exponent: int)
  {
    /** Characters of the text in front of the digits: the sign, and the point if there is one. */
    function Offset(): nat
      requires Numeral?
    {
      (if signed then 1 else 0) + if point then 1 else 0
    }
  }

  function ParseSpecial(word: string, negative: bool): Syntax {
    if EqualFold(word, "inf") || EqualFold(word, "infinity") then Special(Infinity(negative))
    else if EqualFold(word, "nan") then Special(NaN)
    else Malformed
  }

  /** An optional exponent: its value, and the position behind it. */
  function ParseExponent(text: string, at: nat): (r: Option<(int, nat)>)
    requires at <= |text|
    ensures r.Some? ==> at <= r.value.1 <= |text|
  {
    if At(text, at) == 'e' || At(text, at) == 'E' then ReadInt(text, at + 1) else Some((0, at))
  }

  function ParseNumeral(text: string, len: int, signed: bool, negative: bool): Syntax
    requires signed ==> |text| > 0
  {
    var start := if signed then 1 else 0;
    var end := ScanEnd(text, start, if len == -1 then |text| else len);
    var r := text[start..end];
    var exponent := ParseExponent(text, end);
    if TwoPoints(r) || ('.' in r && Digits(r) == []) || exponent.None? then Malformed
    else if (len == -1 || exponent.value.1 < len) && exponent.value.1 < |text| then Malformed
    else Numeral(negative, signed, Digits(r), '.' in r, Fraction(r), exponent.value.0)
  }

  function Parse(text: string, len: int): Syntax {
    var signed := At(text, 0) == '+' || At(text, 0) == '-';
    var negative := At(text, 0) == '-';
    var start := if signed then 1 else 0;
    if InSignificand(At(text, start)) then ParseNumeral(text, len, signed, negative)
    else ParseSpecial(text[start..], negative)
  }

  // ---- normalisation ----

  /** A signed value converted to a 64-bit unsigned one, as C does when the two are compared. */
  function SizeT(x: int): int {
    x % 0x1_0000_0000_0000_0000
  }

  function Int32(x: int): int {
    (x + 0x8000_0000) % 0x1_0000_0000 - 0x8000_0000
  }

  /** The exponent of the last digit: clamped when the fraction is very long, wrapped to 32 bits otherwise. */
  function StartExponent(exponent: int, fraction: nat): int {
    if SizeT(exponent) <= fraction && fraction - SizeT(exponent) > 0x4000 then EXPONENT_MIN
    else Int32(exponent - fraction)
  }

  function Clamp(x: int): int {
    if x > EXPONENT_MAX then EXPONENT_MAX else if x < EXPONENT_MIN then EXPONENT_MIN else x
  }

  datatype Shift = Reject | Fit(kept: nat, padding: nat, exponent: int)

  /** How the exponent of the last digit is brought into range, if that is possible without dropping a digit. */
  function Normalise(digits: seq<Digit>, x: int, text: string, offset: nat): (s: Shift)
    ensures s.Fit? ==> s.kept <= |digits| && s.kept + s.padding <= MAX_DIGITS
                       && EXPONENT_MIN <= s.exponent <= EXPONENT_MAX
    ensures s.Fit? && digits != [] ==> s.kept > 0
    ensures s.Fit? && s.padding > 0 ==> s.kept == |digits|
  {
    if x > EXPONENT_MAX then
      if |digits| + (x - EXPONENT_MAX) > MAX_DIGITS then Reject
      else Fit(|digits|, x - EXPONENT_MAX, EXPONENT_MAX)
    else
      var stored := if |digits| < MAX_DIGITS then |digits| else MAX_DIGITS;
      var x1 := x + (|digits| - stored);
      var under := EXPONENT_MIN - x1;
      if x1 > EXPONENT_MAX then Reject
      else if exists p :: MAX_DIGITS + offset <= p < |digits| + offset && At(text, p) != '0' then Reject
      else if under <= 0 then Fit(stored, 0, x1)
      else if under >= stored || exists i :: stored - under <= i < stored && digits[i] != 0 then Reject
      else Fit(stored - under, 0, EXPONENT_MIN)
  }

  /** The number of digits left when the zeros in front of `base + count` are not counted. */
  function Significant(text: string, base: nat, count: nat): (n: nat)
    ensures n <= count
    ensures n > 0 ==> At(text, base + n - 1) != '0'
    ensures forall p :: base + n <= p < base + count ==> At(text, p) == '0'
  {
    if count > 0 && At(text, base + count - 1) == '0' then Significant(text, base, count - 1) else count
  }

  lemma FitsCoefficient(digits: seq<Digit>, padding: nat)
    requires |digits| + padding <= MAX_DIGITS
    ensures Value(digits) * Pow10(padding) < TEN_34
  {
    ZerosAreZero(padding);
    ValueOfZeros(Zeros(padding));
    ValueAppend(digits, Zeros(padding));
    ValueBound(digits + Zeros(padding));
    Pow10Monotone(|digits| + padding, 34);
    Pow10Of34();
  }

  /** The number with the given leading digits, followed by zeros. */
  function Coefficient(digits: seq<Digit>, padding: nat): (c: nat)
    requires |digits| + padding <= MAX_DIGITS
    ensures c < TEN_34
  {
    FitsCoefficient(digits, padding);
    Value(digits) * Pow10(padding)
  }

  lemma WholeCoefficient(ds: seq<Digit>)
    requires |ds| <= MAX_DIGITS
    ensures Coefficient(ds, 0) == Value(ds)
  {
  }

  function Finish(text: string, n: Syntax): (v: Option<Number>)
    requires n.Numeral?
    ensures v.Some? ==> Representable(v.value)
  {
    var digits := Strip(n.digits);
    var x := StartExponent(n.exponent, n.fraction);
    if digits == [] then Some(Finite(n.negative, 0, Clamp(x)))
    else
      var base := |n.digits| - |digits| + n.Offset();
      match Normalise(digits, x, text, n.Offset())
      case Reject => None
      case Fit(kept, padding, e) =>
        if kept < Significant(text, base, |digits|) && At(text, base + kept) != '0' then None
        else Some(Finite(n.negative, Coefficient(digits[..kept], padding), e))
  }

  /** The number a text is accepted as, or None when it is refused. */
  function Meaning(text: string, len: int): (v: Option<Number>)
    ensures v.Some? ==> Representable(v.value)
  {
    match Parse(text, len)
    case Malformed => None
    case Special(number) => Some(number)
    case Numeral(_, _, _, _, _, _) => Finish(text, Parse(text, len))
  }

  // ---- what the parser demands of its caller ----

  /** Zeros are appended until the last digit is the 35th, one more than there are places for. */
  predicate ShiftsPast(count: nat, x: int) {
    0 < count <= MAX_DIGITS && count + (x - EXPONENT_MAX) == MAX_DIGITS + 1
  }

  /** The numerals for which the code reads behind the array of 34 stored digits. */
  predicate ReadsPastDigits(n: Syntax)
    requires n.Numeral?
  {
    ShiftsPast(|Strip(n.digits)|, StartExponent(n.exponent, n.fraction))
  }

  predicate InDomain(text: string, len: int) {
    && '\0' !in text && |text| < 0x7fff_0000 && -1 <= len
    && (Parse(text, len).Numeral? ==>
          -0x8000_0000 <= Parse(text, len).exponent < 0x8000_0000 && !ReadsPastDigits(Parse(text, len)))
  }
}
