/** bson_decimal128_to_string: digit extraction and the three output layouts. */
module DecimalPrint {
  import opened DecimalDigits
  import opened Decimal128

  const STRING_SIZE: nat := 43

  function DigitChar(d: Digit): char {
    '0' + d as char
  }

  function Text(ds: seq<Digit>): (s: string)
    ensures |s| == |ds|
  {
    if ds == [] then "" else Text(ds[..|ds| - 1]) + [DigitChar(ds[|ds| - 1])]
  }

  /** printf's %+d. */
  function SignedText(x: int): string {
    (if x < 0 then "-" else "+") + Text(Shortest(if x < 0 then -x else x))
  }

  lemma SignedTextIsShort(x: int)
    requires -10000 < x < 10000
    ensures |SignedText(x)| <= 5
  {
    assert Pow10(4) == 10000;
    ShortestLength(if x < 0 then -x else x, 4);
  }

  // ---- the specified text of a number ----

  function Scientific(ds: seq<Digit>, exponent: int): string
    requires ds != []
  {
    Text(ds[..1]) + (if |ds| > 1 then "." + Text(ds[1..]) else "") + "E" + SignedText(|ds| - 1 + exponent)
  }

  /** What precedes the digits after the radix point; `radix` is the number of digits in front of it. */
  function Leading(ds: seq<Digit>, radix: int): string
    requires radix <= |ds|
  {
    if radix > 0 then Text(ds[..radix]) + "." else "0." + Text(Zeros(-radix))
  }

  function Fractional(ds: seq<Digit>, exponent: int): string
    requires exponent < 0
  {
    var radix := |ds| + exponent;
    Leading(ds, radix) + Text(ds[if radix > 0 then radix else 0..])
  }

  function Unsigned(ds: seq<Digit>, exponent: int): string
    requires ds != []
  {
    if |ds| - 1 + exponent < -6 || exponent > 0 then Scientific(ds, exponent)
    else if exponent == 0 then Text(ds)
    else Fractional(ds, exponent)
  }

  function Render(v: Number): string {
    match v
    case Finite(negative, c, e) => (if negative then "-" else "") + Unsigned(Shortest(c), e)
    case Infinity(negative) => (if negative then "-" else "") + "Infinity"
    case NaN => "NaN"
  }

  // ---- the text the code writes ----

  /** A significand that stands for zero, but that the code takes for a number of 35 digits. */
  predicate InWindow(d: Bits) {
    Combination(d) < 30 && TEN_34 <= RawCoefficient(d) < TWO_113
  }

  /** In the scientific layout 35 places are left for a sign and digits; a digit that finds none is dropped. */
  function Fitting(negative: bool, ds: seq<Digit>): seq<Digit> {
    var places := if negative then 34 else 35;
    if |ds| > places then ds[..places] else ds
  }

  function Laid(negative: bool, ds: seq<Digit>, exponent: int): string
    requires ds != []
  {
    var fitting := Fitting(negative, ds);
    if |ds| - 1 + exponent < -6 || exponent > 0 then Scientific(fitting, exponent + (|ds| - |fitting|))
    else Unsigned(ds, exponent)
  }

  /** The digits the code prints: those of the significand as it is written, if it is below 2^113. */
  function PrintedDigits(d: Bits): (ds: seq<Digit>)
    ensures ds != []
  {
    Shortest(if RawCoefficient(d) < TWO_113 then RawCoefficient(d) else 0)
  }

  function Printed(d: Bits): string {
    if Combination(d) == 31 then "NaN"
    else
      (if Negative(d) then "-" else "")
      + if Combination(d) == 30 then "Infinity"
        else Laid(Negative(d), PrintedDigits(d), BiasedExponent(d) - EXPONENT_BIAS)
  }

  /** The encodings whose text fills all 43 bytes, so that the terminator is the 44th. */
  predicate Overruns(d: Bits) {
    InWindow(d) && Negative(d) && BiasedExponent(d) - EXPONENT_BIAS == -40
  }

  /** A NUL-terminated string at the start of a buffer. */
  predicate HoldsString(buffer: seq<char>, s: string) {
    |s| < |buffer| && buffer[..|s|] == s && buffer[|s|] == '\0'
  }

  // ---- digit extraction ----

  lemma {:induction false} ValuePrepend(d: Digit, ds: seq<Digit>)
    ensures Value([d] + ds) == d * Pow10(|ds|) + Value(ds)
  {
    ValueAppend([d], ds);
    assert [d][..0] == [];
    assert Value([d]) == d;
  }

  method WriteNineDigits(digits: array<Digit>, at: nat, number: u32)
    requires at + 9 <= digits.Length && number < 1_000_000_000
    modifies digits
    ensures Value(digits[at..at + 9]) == number
    ensures forall i :: 0 <= i < digits.Length && !(at <= i < at + 9) ==> digits[i] == old(digits[i])
  {
    var leastDigits: nat := number;
    var j := 9;
    assert Pow10(9) == 1_000_000_000;
    while j > 0
      invariant 0 <= j <= 9
      invariant leastDigits < Pow10(j)
      invariant leastDigits * Pow10(9 - j) + Value(digits[at + j..at + 9]) == number
      invariant forall i :: 0 <= i < digits.Length && !(at <= i < at + 9) ==> digits[i] == old(digits[i])
    {
      j := j - 1;
      ghost var rest := digits[at + j + 1..at + 9];
      digits[at + j] := leastDigits % 10;
      assert digits[at + j..at + 9] == [leastDigits % 10] + rest;
      ValuePrepend(leastDigits % 10, rest);
      SplitLast(leastDigits, Pow10(8 - j));
      leastDigits := leastDigits / 10;
    }
  }

  lemma SplitLast(n: nat, p: nat)
    ensures n / 10 * (10 * p) + n % 10 * p == n * p
  {
    assert n == n / 10 * 10 + n % 10;
    assert n / 10 * 10 * p == n / 10 * (10 * p);
  }

  /** A number written as a quotient and the decimal digits already taken off it. */
  predicate Splits(number: nat, quotient: nat, digits: seq<Digit>) {
    quotient * Pow10(|digits|) + Value(digits) == number
  }

  lemma Distribute(q: nat, v: nat, p: nat, d: nat, whole: nat)
    requires whole == q * 1_000_000_000 + v
    ensures q * (p * 1_000_000_000) + (v * p + d) == whole * p + d
  {
    assert q * (p * 1_000_000_000) == q * 1_000_000_000 * p;
  }

  lemma Pow10Billion(n: nat)
    ensures Pow10(n + 9) == Pow10(n) * 1_000_000_000
  {
    Pow10Add(n, 9);
    assert Pow10(9) == 1_000_000_000;
  }

  /** One division pass moves nine digits from the quotient to the digits. */
  lemma NinePlaces(number: nat, before: nat, quotient: nat, nine: seq<Digit>, done: seq<Digit>)
    requires Splits(number, before, done)
    requires |nine| == 9 && before == quotient * 1_000_000_000 + Value(nine)
    ensures Splits(number, quotient, nine + done)
  {
    var value := Value(nine + done);
    ValueAppend(nine, done);
    Pow10Billion(|done|);
    Distribute(quotient, Value(nine), Pow10(|done|), Value(done), before);
    SplitsBy(number, quotient, nine + done, before, done);
  }

  lemma SplitsBy(number: nat, quotient: nat, digits: seq<Digit>, before: nat, done: seq<Digit>)
    requires Splits(number, before, done)
    requires quotient * Pow10(|digits|) + Value(digits) == before * Pow10(|done|) + Value(done)
    ensures Splits(number, quotient, digits)
  {
  }

  lemma AllDigitsTaken(number: nat, quotient: nat, digits: seq<Digit>)
    requires Splits(number, quotient, digits) && number < Pow10(|digits|)
    ensures quotient == 0 && Value(digits) == number
  {
    NoMultiple(quotient, Pow10(|digits|), Value(digits));
  }

  lemma NoMultiple(q: nat, p: nat, v: nat)
    ensures q * p + v < p ==> q == 0
  {
    if q > 0 {
      assert q * p == p + (q - 1) * p;
    }
  }

  /** One pass: divides by 10^9 and writes the nine digits of the remainder. */
  method ExtractNine(digits: array<Digit>, at: nat, significand: seq<u32>, ghost number: nat)
    returns (quotient: seq<u32>)
    requires |significand| == 4 && digits.Length == 36 && at + 9 <= 36
    requires forall i :: 0 <= i < at + 9 ==> digits[i] == 0
    requires Splits(number, WordsValue(significand), digits[at + 9..36])
    modifies digits
    ensures |quotient| == 4 && Splits(number, WordsValue(quotient), digits[at..36])
    ensures forall i :: 0 <= i < at ==> digits[i] == 0
  {
    hide Splits, WordsValue, Value;
    ghost var done := digits[at + 9..36];
    var leastDigits: u32;
    quotient, leastDigits := Divide1B(significand);
    if leastDigits != 0 {
      WriteNineDigits(digits, at, leastDigits);
    } else {
      ValueOfZeros(digits[at..at + 9]);
    }
    assert digits[at + 9..36] == done;
    assert digits[at..36] == digits[at..at + 9] + done;
    NinePlaces(number, WordsValue(significand), WordsValue(quotient), digits[at..at + 9], done);
  }

  /** The 36 zero-padded decimal digits of a significand below 10^36. */
  method ExtractDigits(significand: seq<u32>) returns (digits: array<Digit>)
    requires |significand| == 4 && WordsValue(significand) < Pow10(36)
    ensures fresh(digits) && digits.Length == 36
    ensures Value(digits[..]) == WordsValue(significand)
  {
    digits := new Digit[36](_ => 0);
    var significand128 := significand;
    ghost var number := WordsValue(significand);
    var k := 4;
    assert digits[36..36] == [];
    assert Splits(number, number, []);
    while k > 0
      invariant 0 <= k <= 4 && |significand128| == 4
      invariant forall i :: 0 <= i < k * 9 ==> digits[i] == 0
      invariant Splits(number, WordsValue(significand128), digits[k * 9..36])
    {
      k := k - 1;
      significand128 := ExtractNine(digits, k * 9, significand128, number);
    }
    assert digits[0..36] == digits[..];
    AllDigitsTaken(number, WordsValue(significand128), digits[..]);
  }

  /** Steps over the leading zeros of a digit array that is not all zero. */
  method SkipLeadingZeros(significand: array<Digit>) returns (read: nat, count: nat)
    requires significand.Length == 36 && Value(significand[..]) > 0
    ensures read + count == 36 && significand[read..read + count] == Shortest(Value(significand[..]))
  {
    read, count := 0, 36;
    SomeDigitIsNonZero(significand[..]);
    ghost var k :| 0 <= k < 36 && significand[..][k] != 0;
    while significand[read] == 0
      invariant read + count == 36 && 0 <= read <= k
      invariant forall i :: 0 <= i < read ==> significand[i] == 0
      decreases count
    {
      count := count - 1;
      read := read + 1;
    }
    assert significand[..][read..] == significand[read..read + count];
    SuffixIsShortest(significand[..], read);
  }

  lemma SuffixIsShortest(ds: seq<Digit>, k: nat)
    requires k < |ds| && ds[k] != 0 && forall i :: 0 <= i < k ==> ds[i] == 0
    ensures ds[k..] == Shortest(Value(ds))
  {
    StripAt(ds, k);
    ValueOfStrip(ds);
    ShortestIsUnique(ds[k..]);
  }

  lemma SomeDigitIsNonZero(ds: seq<Digit>)
    requires Value(ds) > 0
    ensures exists i :: 0 <= i < |ds| && ds[i] != 0
  {
    if forall i :: 0 <= i < |ds| ==> ds[i] == 0 {
      ValueOfZeros(ds);
    }
  }

  lemma TwoTo113()
    ensures TWO_113 < Pow10(35) && TWO_113 < Pow10(36)
  {
    Pow10Of34();
    assert Pow10(35) == 10 * Pow10(34) && Pow10(36) == 10 * Pow10(35);
  }

  lemma ShortestOfZero()
    ensures Shortest(0) == [0]
  {
  }

  /**
   * The digits to print: the significand without leading zeros, and a single 0 for zero or a value of 2^113 or more.
   */
  method SignificandDigits(parts: seq<u32>) returns (digits: seq<Digit>)
    requires |parts| == 4
    ensures digits == Shortest(if WordsValue(parts) < TWO_113 then WordsValue(parts) else 0)
  {
    hide WordsValue, Value, Pow10, Shortest;
    WordsOfFour(parts);
    ShortestOfZero();
    var isZero := false;
    var significand := new Digit[36](_ => 0);
    if parts[0] == 0 && parts[1] == 0 && parts[2] == 0 && parts[3] == 0 {
      isZero := true;
    } else if parts[0] >= 0x2_0000 {
      isZero := true;
    } else {
      TwoTo113();
      significand := ExtractDigits(parts);
    }
    var read, count := 0, 1;
    if isZero {
      significand[0] := 0;
    } else {
      read, count := SkipLeadingZeros(significand);
    }
    digits := significand[read..read + count];
  }

  lemma {:induction false} WordsOfFour(w: seq<u32>)
    requires |w| == 4
    ensures WordsValue(w)
         == w[0] as int * 0x1_0000_0000_0000_0000_0000_0000 + w[1] as int * 0x1_0000_0000_0000_0000
            + w[2] as int * 0x1_0000_0000 + w[3] as int
  {
    var w3, w2, w1 := w[..3], w[..2], w[..1];
    assert w3[..2] == w2 && w2[..1] == w1 && w1[..0] == [];
    assert WordsValue(w1) == w[0];
    assert WordsValue(w2) == WordsValue(w1) * 0x1_0000_0000 + w[1];
    assert WordsValue(w3) == WordsValue(w2) * 0x1_0000_0000 + w[2];
  }
}
