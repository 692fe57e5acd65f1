/** bson_decimal128_to_string: the text is written in place, in one of three layouts. */
module DecimalToString {
  import opened DecimalDigits
  import opened Decimal128
  import opened DecimalPrint

  /** Copies digits while the write position stays below `limit`. */
  method CopyDigits(str: array<char>, at: nat, digits: seq<Digit>, limit: nat) returns (end: nat)
    requires at <= limit <= str.Length
    modifies str
    ensures end == if |digits| <= limit - at then at + |digits| else limit
    ensures str[..end] == old(str[..at]) + Text(digits[..end - at])
  {
    end := at;
    var i := 0;
    while i < |digits| && end < limit
      invariant i <= |digits| && end == at + i <= limit
      invariant str[..end] == old(str[..at]) + Text(digits[..i])
    {
      assert digits[..i + 1][..i] == digits[..i];
      str[end] := DigitChar(digits[i]);
      end := end + 1;
      i := i + 1;
    }
  }

  method CopyString(str: array<char>, at: nat, s: string)
    requires at + |s| < str.Length
    modifies str
    ensures HoldsString(str[..], old(str[..at]) + s)
  {
    for i := 0 to |s|
      invariant str[..at] == old(str[..at])
      invariant str[at..at + i] == s[..i]
    {
      str[at + i] := s[i];
    }
    str[at + |s|] := '\0';
    assert str[..at + |s|] == str[..at] + str[at..at + |s|];
  }

  /** snprintf of "%+d" with room for `size` bytes. */
  method PrintSigned(str: array<char>, at: nat, size: nat, x: int)
    requires size > 0 && at + size <= str.Length
    modifies str
    ensures |SignedText(x)| < size ==> HoldsString(str[..], old(str[..at]) + SignedText(x))
  {
    var s := SignedText(x);
    CopyString(str, at, if |s| < size then s else s[..size - 1]);
  }

  lemma Regroup(a: string, b: string, c: string, d: string)
    ensures a + (b + c + d) == a + b + c + d
  {
  }

  method PutChar(str: array<char>, at: nat, c: char) returns (end: nat)
    requires at < str.Length
    modifies str
    ensures end == at + 1 && str[..end] == old(str[..at]) + [c]
  {
    str[at] := c;
    end := at + 1;
  }

  /** The first digit, and the others behind the point as far as the guard lets them. */
  method WriteMantissa(str: array<char>, at: nat, digits: seq<Digit>) returns (out: nat)
    requires str.Length >= STRING_SIZE && at <= 1 && 1 <= |digits| <= 35
    modifies str
    ensures out <= 36
    ensures var fitting := Fitting(at == 1, digits);
            str[..out] == old(str[..at]) + (Text(fitting[..1]) + if |fitting| > 1 then "." + Text(fitting[1..]) else "")
  {
    hide Text;
    ghost var sign, fitting := str[..at], Fitting(at == 1, digits);
    TextOfOne(digits[0]);
    assert fitting[..1] == [digits[0]];
    out := PutChar(str, at, DigitChar(digits[0]));
    if |digits| > 1 {
      out := PutChar(str, out, '.');
    }
    ghost var start := out;
    out := CopyDigits(str, out, digits[1..], 36);
    assert digits[1..][..out - start] == fitting[1..];
    NoText();
  }

  lemma TextOfOne(d: Digit)
    ensures Text([d]) == [DigitChar(d)]
  {
    assert [d][..0] == [];
  }

  lemma NoText()
    ensures Text([]) == ""
  {
  }

  method WriteScientific(str: array<char>, at: nat, digits: seq<Digit>, exponent: int)
    requires str.Length >= STRING_SIZE && at <= 1 && 1 <= |digits| <= 35
    requires EXPONENT_MIN <= exponent <= EXPONENT_MAX
    modifies str
    ensures var fitting := Fitting(at == 1, digits);
            HoldsString(str[..], old(str[..at]) + Scientific(fitting, exponent + (|digits| - |fitting|)))
  {
    hide Text, SignedText;
    ghost var fitting := Fitting(at == 1, digits);
    ghost var mantissa := Text(fitting[..1]) + if |fitting| > 1 then "." + Text(fitting[1..]) else "";
    var out := WriteMantissa(str, at, digits);
    out := PutChar(str, out, 'E');
    var scientificExponent := |digits| - 1 + exponent;
    SignedTextIsShort(scientificExponent);
    Regroup(old(str[..at]), mantissa, "E", SignedText(scientificExponent));
    PrintSigned(str, out, 6, scientificExponent);
  }

  method WriteInteger(str: array<char>, at: nat, digits: seq<Digit>)
    requires str.Length >= STRING_SIZE && at <= 1 && 1 <= |digits| <= 35
    modifies str
    ensures HoldsString(str[..], old(str[..at]) + Text(digits))
  {
    var out := CopyDigits(str, at, digits, 36);
    assert digits[..out - at] == digits;
    str[out] := '\0';
  }

  /** The zeros between the radix point and the first digit. */
  method WriteZeros(str: array<char>, at: nat, count: nat) returns (end: nat)
    requires at + count <= str.Length
    modifies str
    ensures end == at + count && str[..end] == old(str[..at]) + Text(Zeros(count))
  {
    end := at;
    var position := 0 - count;
    while position < 0
      invariant position <= 0 && end == at + count + position
      invariant str[..end] == old(str[..at]) + Text(Zeros(end - at))
    {
      assert Zeros(end - at + 1)[..end - at] == Zeros(end - at);
      end := PutChar(str, end, '0');
      position := position + 1;
    }
  }

  /** The digits before the radix point, or 0; then the point and the zeros that follow it. */
  method WriteLeading(str: array<char>, at: nat, digits: seq<Digit>, radix: int) returns (end: nat, read: nat)
    requires str.Length >= STRING_SIZE && at <= 1 && -5 <= radix <= |digits| <= 35
    modifies str
    ensures read == if radix > 0 then radix else 0
    ensures end + |digits| - read <= STRING_SIZE - (if at == 1 && |digits| == 35 && radix == -5 then 0 else 1)
    ensures str[..end] == old(str[..at]) + Leading(digits, radix)
  {
    hide Text;
    end, read := at, 0;
    if radix > 0 {
      end := CopyDigits(str, end, digits[..radix], STRING_SIZE);
      assert digits[..radix][..radix] == digits[..radix];
      read := radix;
    } else {
      end := PutChar(str, end, '0');
    }
    end := PutChar(str, end, '.');
    if radix <= 0 {
      end := WriteZeros(str, end, -radix);
    }
  }

  /**
   * All 43 bytes are filled when the text starts with a sign and five zeros follow the point; one more is then needed.
   */
  method WriteFractional(str: array<char>, at: nat, digits: seq<Digit>, exponent: int)
    requires at <= 1 && 1 <= |digits| <= 35
    requires str.Length >= STRING_SIZE + if at == 1 && |digits| == 35 && exponent == -40 then 1 else 0
    requires exponent < 0 && |digits| - 1 + exponent >= -6
    modifies str
    ensures HoldsString(str[..], old(str[..at]) + Fractional(digits, exponent))
  {
    hide Text, Leading;
    var out, read := WriteLeading(str, at, digits, |digits| + exponent);
    out := CopyDigits(str, out, digits[read..], STRING_SIZE);
    assert digits[read..][..|digits| - read] == digits[read..];
    str[out] := '\0';
  }

  method WriteFinite(str: array<char>, at: nat, digits: seq<Digit>, exponent: int)
    requires at <= 1 && 1 <= |digits| <= 35
    requires str.Length >= STRING_SIZE + if at == 1 && |digits| == 35 && exponent == -40 then 1 else 0
    requires EXPONENT_MIN <= exponent <= EXPONENT_MAX
    modifies str
    ensures HoldsString(str[..], old(str[..at]) + Laid(at == 1, digits, exponent))
  {
    var scientificExponent := |digits| - 1 + exponent;
    if scientificExponent < -6 || exponent > 0 {
      WriteScientific(str, at, digits, exponent);
    } else if exponent >= 0 {
      WriteInteger(str, at, digits);
    } else {
      WriteFractional(str, at, digits, exponent);
    }
  }

  /** A finite number, after its sign: the significand words are turned into digits and laid out. */
  method WriteNumber(str: array<char>, at: nat, dec: Bits, parts: seq<u32>, exponent: int)
    requires Combination(dec) < 30 && at == if Negative(dec) then 1 else 0
    requires str.Length >= STRING_SIZE + if Overruns(dec) then 1 else 0
    requires |parts| == 4 && WordsValue(parts) == RawCoefficient(dec)
    requires exponent == BiasedExponent(dec) - EXPONENT_BIAS
    modifies str
    ensures HoldsString(str[..], old(str[..at]) + Laid(Negative(dec), PrintedDigits(dec), exponent))
  {
    hide Laid, WordsValue;
    var digits := SignificandDigits(parts);
    DigitsOfPrinted(dec);
    WriteFinite(str, at, digits, exponent);
  }

  /** The whole printer. The documented 43 bytes are enough for every encoding but those that overrun them by one. */
  method ToString(dec: Bits, str: array<char>)
    requires str.Length >= STRING_SIZE + if Overruns(dec) then 1 else 0
    modifies str
    ensures HoldsString(str[..], Printed(dec))
  {
    hide Laid, WordsValue, RawCoefficient, Overruns, PrintedDigits;
    var out := 0;
    if dec.high >= 0x8000_0000_0000_0000 {
      out := PutChar(str, out, '-');
    }
    ghost var sign := if Negative(dec) then "-" else "";
    assert str[..out] == sign;
    var low, midl := Low32(dec.low), High32(dec.low);
    var midh, high := Low32(dec.high), High32(dec.high);
    var combination := high / 0x400_0000 % 32;
    SameCombination(dec);
    var biasedExponent, significandMsb;
    if combination / 8 == 3 {
      if combination == 30 {
        CopyString(str, out, "Infinity");
        return;
      } else if combination == 31 {
        CopyString(str, 0, "NaN");
        assert str[..0] + "NaN" == "NaN";
        return;
      }
      biasedExponent := high / 0x8000 % 0x4000;
      significandMsb := 8 + high / 0x4000 % 2;
    } else {
      significandMsb := high / 0x4000 % 8;
      biasedExponent := high / 0x2_0000 % 0x4000;
    }
    var exponent := biasedExponent - EXPONENT_BIAS;
    HalvesAgree(dec, high, biasedExponent, significandMsb);
    var parts: seq<u32> := [high % 0x4000 + significandMsb % 16 * 0x4000, midh, midl, low];
    WriteNumber(str, out, dec, parts, exponent);
  }

  lemma UpperHalf(x: nat, high: nat, low: nat)
    requires x == high * 0x1_0000_0000 + low && low < 0x1_0000_0000
    ensures x / 0x8000_0000_0000 == high / 0x8000
    ensures x / 0x2_0000_0000_0000 == high / 0x2_0000
    ensures x / 0x400_0000_0000_0000 == high / 0x400_0000
    ensures x % 0x8000_0000_0000 == high % 0x8000 * 0x1_0000_0000 + low
    ensures x % 0x2_0000_0000_0000 == high % 0x2_0000 * 0x1_0000_0000 + low
  {
    assert x / 0x8000_0000_0000 == high / 0x8000;
    assert x / 0x2_0000_0000_0000 == high / 0x2_0000;
  }

  lemma TopBits(high: nat)
    ensures high % 0x2_0000 == high % 0x4000 + high / 0x4000 % 8 * 0x4000
    ensures high % 0x8000 == high % 0x4000 + high / 0x4000 % 2 * 0x4000
  {
    var h, rest := high / 0x4000, high % 0x4000;
    SplitEight(h);
    SplitTwo(h);
    assert high == h * 0x4000 + rest;
    hide *;
    LowSeventeen(high, h / 8, h % 8 * 0x4000 + rest);
    LowFifteen(high, h / 2, h % 2 * 0x4000 + rest);
  }

  lemma SplitEight(h: nat)
    ensures h == h / 8 * 8 + h % 8 && h % 8 < 8
  {
  }

  lemma SplitTwo(h: nat)
    ensures h == h / 2 * 2 + h % 2 && h % 2 < 2
  {
  }

  lemma LowSeventeen(n: nat, q: nat, r: nat)
    requires n == q * 0x2_0000 + r && r < 0x2_0000
    ensures n % 0x2_0000 == r
  {
  }

  lemma LowFifteen(n: nat, q: nat, r: nat)
    requires n == q * 0x8000 + r && r < 0x8000
    ensures n % 0x8000 == r
  {
  }

  lemma SameCombination(dec: Bits)
    ensures High32(dec.high) / 0x400_0000 % 32 == Combination(dec)
  {
    UpperHalf(dec.high, High32(dec.high), Low32(dec.high));
  }

  /** Reading the fields from the upper 32 bits agrees with reading them from all 64. */
  lemma HalvesAgree(dec: Bits, high: nat, biased: nat, msb: nat)
    requires high == High32(dec.high)
    requires biased == if LargeForm(dec) then high / 0x8000 % 0x4000 else high / 0x2_0000 % 0x4000
    requires msb == if LargeForm(dec) then 8 + high / 0x4000 % 2 else high / 0x4000 % 8
    ensures biased == BiasedExponent(dec)
    ensures msb < 16 && high % 0x4000 + msb * 0x4000 < 0x4_0000
    ensures WordsValue([high % 0x4000 + msb * 0x4000, Low32(dec.high), High32(dec.low), Low32(dec.low)])
         == RawCoefficient(dec)
  {
    var low := Low32(dec.high);
    assert dec.high == high * 0x1_0000_0000 + low;
    UpperHalf(dec.high, high, low);
    TopBits(high);
    var top := high % 0x4000 + msb * 0x4000;
    assert RawCoefficient(dec) == (top * 0x1_0000_0000 + low) * 0x1_0000_0000_0000_0000 + dec.low;
    WordsOfFour([top, low, High32(dec.low), Low32(dec.low)]);
  }

  /** At most 35 digits are printed, and 35 exactly in the window. */
  lemma DigitsOfPrinted(dec: Bits)
    requires Combination(dec) < 30
    ensures EXPONENT_MIN <= BiasedExponent(dec) - EXPONENT_BIAS <= EXPONENT_MAX
    ensures |PrintedDigits(dec)| <= 35 && (|PrintedDigits(dec)| == 35 <==> InWindow(dec))
  {
    BiasedFits(dec);
    var c := if RawCoefficient(dec) < TWO_113 then RawCoefficient(dec) else 0;
    TwoTo113();
    Pow10Of34();
    ShortestLength(c, 35);
    if c < TEN_34 {
      ShortestLength(c, 34);
    } else {
      ValueOfShortest(c);
      ValueBound(Shortest(c));
      if |Shortest(c)| < 35 {
        Pow10Monotone(|Shortest(c)|, 34);
      }
    }
  }
}
