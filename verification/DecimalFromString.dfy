/** bson_decimal128_from_string_w_len, phase by phase. */
module DecimalFromString {
  import opened Common
  import opened DecimalDigits
  import opened Decimal128
  import opened DecimalSyntax

  method Istreq(a: string, b: string) returns (equal: bool)
    ensures equal == EqualFold(a, b)
  {
    var i := 0;
    while i < |a| || i < |b|
      invariant i <= |a| && i <= |b|
      decreases |a| - i
      invariant forall j :: 0 <= j < i ==> Lower(a[j]) == Lower(b[j])
    {
      if i >= |a| || i >= |b| {
        return false;
      }
      if Lower(a[i]) != Lower(b[i]) {
        return false;
      }
      i := i + 1;
    }
    return true;
  }

  /** What the digit loop has stored: the first 34 digits after the leading zeros, then zeros. */
  predicate Stores(digits: seq<Digit>, stored: nat, stripped: seq<Digit>) {
    && |digits| == MAX_DIGITS && stored == Min(|stripped|, MAX_DIGITS)
    && digits[..stored] == stripped[..stored]
    && forall i :: stored <= i < MAX_DIGITS ==> digits[i] == 0
  }

  datatype Counters = Counters(point: bool, read: nat, count: nat, stored: nat, fraction: nat, firstNonzero: nat)

  /** The counters after reading significand characters with the given digits. */
  predicate Counts(c: Counters, point: bool, fraction: nat, all: seq<Digit>, stripped: seq<Digit>) {
    && c.point == point && c.fraction == fraction && c.read == |all| && c.count == |stripped|
    && (c.count > 0 ==> c.firstNonzero == c.read - c.count)
  }

  /** The counters and stored digits after reading the significand characters `r`. */
  predicate Scanned(r: string, digits: seq<Digit>, c: Counters) {
    && !TwoPoints(r)
    && Counts(c, '.' in r, Fraction(r), Digits(r), Strip(Digits(r)))
    && Stores(digits, c.stored, Strip(Digits(r)))
  }

  lemma AppendCharacter(r: string, ch: char)
    ensures Digits(r + [ch]) == if ch == '.' then Digits(r) else Digits(r) + [DigitOf(ch)]
    ensures Fraction(r + [ch]) == if '.' !in r then 0 else Fraction(r) + if ch == '.' then 0 else 1
  {
    assert (r + [ch])[..|r|] == r;
  }

  lemma ScannedPoint(r: string, digits: seq<Digit>, c: Counters)
    requires Scanned(r, digits, c) && !c.point
    ensures Scanned(r + ".", digits, c.(point := true))
  {
    AppendCharacter(r, '.');
    NoFraction(r);
  }

  lemma StoresAppend(digits: seq<Digit>, stored: nat, stripped: seq<Digit>, d: Digit)
    requires Stores(digits, stored, stripped)
    ensures stored < MAX_DIGITS ==> Stores(digits[stored := d], stored + 1, stripped + [d])
    ensures stored == MAX_DIGITS ==> Stores(digits, stored, stripped + [d])
  {
  }

  /** One digit read: where the counters and the stored digits go. */
  predicate DigitRead(ch: char, digits: seq<Digit>, c: Counters, digits': seq<Digit>, c': Counters)
    requires |digits| == MAX_DIGITS
  {
    var nonzero := ch != '0' || c.count > 0;
    && c'.point == c.point && c'.read == c.read + 1
    && c'.count == c.count + (if nonzero then 1 else 0)
    && c'.fraction == c.fraction + (if c.point then 1 else 0)
    && c'.firstNonzero == (if nonzero && c.count == 0 then c.read else c.firstNonzero)
    && (if nonzero && c.stored < MAX_DIGITS then c'.stored == c.stored + 1 && digits' == digits[c.stored := DigitOf(ch)]
        else c'.stored == c.stored && digits' == digits)
  }

  lemma CountsDigit(r: string, ch: char, digits: seq<Digit>, c: Counters, digits': seq<Digit>, c': Counters)
    requires |digits| == MAX_DIGITS && IsDigit(ch) && DigitRead(ch, digits, c, digits', c')
    requires Counts(c, '.' in r, Fraction(r), Digits(r), Strip(Digits(r)))
    ensures Counts(c', '.' in r + [ch], Fraction(r + [ch]), Digits(r + [ch]), Strip(Digits(r + [ch])))
  {
    AppendCharacter(r, ch);
    if !c.point {
      NoFraction(r);
    }
    StripAppend(Digits(r), DigitOf(ch));
  }

  lemma StoresDigit(r: string, ch: char, digits: seq<Digit>, c: Counters, digits': seq<Digit>, c': Counters)
    requires |digits| == MAX_DIGITS && IsDigit(ch) && DigitRead(ch, digits, c, digits', c')
    requires c.count == |Strip(Digits(r))| && Stores(digits, c.stored, Strip(Digits(r)))
    ensures Stores(digits', c'.stored, Strip(Digits(r + [ch])))
  {
    AppendCharacter(r, ch);
    StripAppend(Digits(r), DigitOf(ch));
    var stripped := Strip(Digits(r));
    assert c.stored <= MAX_DIGITS;
    StoresAppend(digits, c.stored, stripped, DigitOf(ch));
  }

  lemma ScannedDigit(r: string, ch: char, digits: seq<Digit>, c: Counters, digits': seq<Digit>, c': Counters)
    requires Scanned(r, digits, c) && |digits| == MAX_DIGITS && IsDigit(ch) && DigitRead(ch, digits, c, digits', c')
    ensures Scanned(r + [ch], digits', c')
  {
    CountsDigit(r, ch, digits, c, digits', c');
    StoresDigit(r, ch, digits, c, digits', c');
    OnePoint(r, ch);
  }

  lemma OnePoint(r: string, ch: char)
    requires !TwoPoints(r) && ch != '.'
    ensures !TwoPoints(r + [ch])
  {
  }

  /** The digit loop has consumed the text from `start` up to `end`. */
  predicate Reading(text: string, start: nat, end: nat, limit: int, digits: seq<Digit>, c: Counters) {
    && start <= end <= |text| && ScanEnd(text, end, limit) == ScanEnd(text, start, limit)
    && Scanned(text[start..end], digits, c)
  }

  predicate Continues(text: string, end: nat, limit: int) {
    end < |text| && InSignificand(text[end]) && end < limit
  }

  lemma StartReading(text: string, start: nat, limit: int, digits: seq<Digit>)
    requires start <= |text| && |digits| == MAX_DIGITS && forall i :: 0 <= i < MAX_DIGITS ==> digits[i] == 0
    ensures Reading(text, start, start, limit, digits, Counters(false, 0, 0, 0, 0, 0))
  {
    assert text[start..start] == "";
  }

  lemma ReadPoint(text: string, start: nat, end: nat, limit: int, digits: seq<Digit>, c: Counters)
    requires Reading(text, start, end, limit, digits, c) && Continues(text, end, limit) && text[end] == '.'
    ensures !c.point ==> Reading(text, start, end + 1, limit, digits, c.(point := true))
    ensures c.point ==> TwoPoints(text[start..ScanEnd(text, start, limit)])
  {
    var stop := ScanEnd(text, start, limit);
    if c.point {
      var j :| 0 <= j < end - start && text[start..end][j] == '.';
      assert text[start..stop][j] == '.' && text[start..stop][end - start] == '.';
    } else {
      assert text[start..end + 1] == text[start..end] + ".";
      ScannedPoint(text[start..end], digits, c);
    }
  }

  lemma ReadDigit(text: string, start: nat, end: nat, limit: int,
                  digits: seq<Digit>, c: Counters, digits': seq<Digit>, c': Counters)
    requires Reading(text, start, end, limit, digits, c) && Continues(text, end, limit) && text[end] != '.'
    requires |digits| == MAX_DIGITS && DigitRead(text[end], digits, c, digits', c')
    ensures Reading(text, start, end + 1, limit, digits', c')
  {
    assert text[start..end + 1] == text[start..end] + [text[end]];
    ScannedDigit(text[start..end], text[end], digits, c, digits', c');
  }

  lemma DoneReading(text: string, start: nat, end: nat, limit: int, digits: seq<Digit>, c: Counters)
    requires Reading(text, start, end, limit, digits, c) && !Continues(text, end, limit)
    ensures end == ScanEnd(text, start, limit) && Scanned(text[start..end], digits, c)
    ensures !TwoPoints(text[start..end])
  {
  }

  lemma StoredSoFar(text: string, start: nat, end: nat, limit: int, digits: seq<Digit>, c: Counters)
    requires Reading(text, start, end, limit, digits, c)
    ensures c.stored == Min(c.count, MAX_DIGITS) && |digits| == MAX_DIGITS
    ensures end <= |text|
  {
  }

  /** The digit loop: it keeps the first 34 digits after the leading zeros and gives up on a second radix point. */
  method ReadDigits(text: string, start: nat, limit: int, digits: array<Digit>)
    returns (ok: bool, end: nat, c: Counters)
    requires start <= |text| && digits.Length == MAX_DIGITS
    requires forall i :: 0 <= i < MAX_DIGITS ==> digits[i] == 0
    modifies digits
    ensures ok == !TwoPoints(text[start..ScanEnd(text, start, limit)])
    ensures ok ==> end == ScanEnd(text, start, limit) && Scanned(text[start..end], digits[..], c)
  {
    c := Counters(false, 0, 0, 0, 0, 0);
    end := start;
    StartReading(text, start, limit, digits[..]);
    while end < |text| && InSignificand(text[end]) && end < limit
      invariant end <= |text| && Reading(text, start, end, limit, digits[..], c)
    {
      if text[end] == '.' {
        ReadPoint(text, start, end, limit, digits[..], c);
        if c.point {
          ok := false;
          return;
        }
        c := c.(point := true);
      } else {
        StoredSoFar(text, start, end, limit, digits[..], c);
        c := StoreDigit(text, start, end, limit, digits, c);
      }
      end := end + 1;
    }
    DoneReading(text, start, end, limit, digits[..], c);
    ok := true;
  }

  method StoreDigit(text: string, ghost start: nat, end: nat, ghost limit: int, digits: array<Digit>, before: Counters)
    returns (c: Counters)
    requires digits.Length == MAX_DIGITS && Continues(text, end, limit) && text[end] != '.'
    requires Reading(text, start, end, limit, digits[..], before)
    modifies digits
    ensures Reading(text, start, end + 1, limit, digits[..], c)
  {
    ghost var digitsBefore := digits[..];
    StoredSoFar(text, start, end, limit, digits[..], before);
    var Counters(point, read, count, stored, fraction, firstNonzero) := before;
    var nonzero := text[end] != '0' || count > 0;
    if stored < MAX_DIGITS && nonzero {
      if count == 0 {
        firstNonzero := read;
      }
      digits[stored] := DigitOf(text[end]);
      stored := stored + 1;
    }
    if nonzero {
      count := count + 1;
    }
    if point {
      fraction := fraction + 1;
    }
    c := Counters(point, read + 1, count, stored, fraction, firstNonzero);
    ReadDigit(text, start, end, limit, digitsBefore, before, digits[..], c);
  }

  /** The loop that marks trailing zeros as not significant; `base` is the text position of the first digit kept. */
  method TrimZeros(text: string, base: nat, count: nat) returns (significant: nat)
    requires exists p :: base <= p < base + count && At(text, p) != '0'
    ensures significant == Significant(text, base, count)
  {
    significant := count;
    ghost var stop :| base <= stop < base + count && At(text, stop) != '0';
    while At(text, base + significant - 1) == '0'
      invariant stop < base + significant <= base + count
      invariant Significant(text, base, significant) == Significant(text, base, count)
      decreases significant
    {
      significant := significant - 1;
    }
  }

  /** The first normalisation loop: zeros are appended until the exponent is no longer too large. */
  method ShiftDown(start: int, lastStart: nat, significant: nat) returns (ok: bool, exponent: int, last: nat)
    requires lastStart < MAX_DIGITS
    ensures start <= EXPONENT_MAX ==> ok && exponent == start && last == lastStart
    ensures start > EXPONENT_MAX ==> ok == (significant == 0 || lastStart + (start - EXPONENT_MAX) <= MAX_DIGITS)
    ensures start > EXPONENT_MAX && ok ==> exponent == EXPONENT_MAX
    ensures start > EXPONENT_MAX && ok && significant > 0 ==> last == lastStart + (start - EXPONENT_MAX)
  {
    exponent, last := start, lastStart;
    while exponent > EXPONENT_MAX
      invariant lastStart <= last <= MAX_DIGITS && last + exponent == lastStart + start
      invariant exponent == start || exponent >= EXPONENT_MAX
    {
      last := last + 1;
      if last > MAX_DIGITS {
        if significant == 0 {
          exponent := EXPONENT_MAX;
          break;
        }
        ok := false;
        return;
      }
      exponent := exponent - 1;
    }
    ok := true;
  }

  /** No digit that the second loop has dropped so far was other than zero. */
  predicate Dropped(text: string, offset: nat, digits: seq<Digit>, count: nat, n: nat, last: nat)
    requires |digits| == MAX_DIGITS
  {
    && (forall p :: n + offset <= p < count + offset ==> At(text, p) == '0')
    && (forall i :: last < i < Min(count, MAX_DIGITS) ==> digits[i] == 0)
  }

  /** The second loop: trailing digits are dropped, first those not stored, as long as they are zero. */
  method ShiftUp(text: string, offset: nat, digits: array<Digit>, start: int, count: nat, significant: nat,
                 lastStart: nat)
    returns (ok: bool, exponent: int, last: nat)
    requires digits.Length == MAX_DIGITS && count > 0 && start <= EXPONENT_MAX
    requires significant == 0 ==> count == 1 && (start == EXPONENT_MAX || lastStart == 0)
    requires significant > 0 ==> lastStart == Min(count, MAX_DIGITS) - 1
                                 || (start == EXPONENT_MAX && lastStart >= Min(count, MAX_DIGITS))
    ensures significant == 0 ==> ok && exponent == Clamp(start)
    ensures significant > 0 && start == EXPONENT_MAX ==> ok == (count <= MAX_DIGITS)
    ensures significant > 0 && start == EXPONENT_MAX && ok ==> exponent == EXPONENT_MAX && last == lastStart
    ensures significant > 0 && start < EXPONENT_MAX ==>
              var stored := Min(count, MAX_DIGITS);
              var x := start + (count - stored);
              var under := if x < EXPONENT_MIN then EXPONENT_MIN - x else 0;
              && ok == (x <= EXPONENT_MAX && under < stored
                        && (forall p :: MAX_DIGITS + offset <= p < count + offset ==> At(text, p) == '0')
                        && (forall i :: stored - under <= i < stored ==> digits[i] == 0))
              && (ok ==> exponent == x + under && last == stored - under - 1)
  {
    var stored, n := Min(count, MAX_DIGITS), count;
    exponent, last := start, lastStart;
    while exponent < EXPONENT_MIN || stored < n
      invariant stored <= n <= count && exponent <= EXPONENT_MAX
      invariant start == EXPONENT_MAX ==> exponent == start && last == lastStart && n == count
      invariant start < EXPONENT_MAX ==>
                  && exponent == start + (count - n) + (stored - 1 - last) && last < stored
                  && (n > stored ==> last == stored - 1)
                  && (last < stored - 1 ==> exponent <= EXPONENT_MIN)
                  && Dropped(text, offset, digits[..], count, n, last)
      decreases n + last
    {
      if last == 0 {
        if significant == 0 {
          exponent := EXPONENT_MIN;
          break;
        }
        ok := false;
        return;
      }
      if stored < n {
        if At(text, n - 1 + offset) != '0' && significant != 0 {
          ok := false;
          return;
        }
        n := n - 1;
      } else {
        if digits[last] != 0 {
          ok := false;
          return;
        }
        last := last - 1;
      }
      if exponent < EXPONENT_MAX {
        exponent := exponent + 1;
      } else {
        ok := false;
        return;
      }
    }
    ok := true;
  }

  /** Accumulates the digits from `from` up to `to`, which are at most 17, in a 64-bit word. */
  method Accumulate(digits: array<Digit>, from: nat, to: nat) returns (word: u64)
    requires digits.Length == MAX_DIGITS && from < to <= MAX_DIGITS && to - from <= 17
    ensures word == Value(digits[from..to]) < 100_000_000_000_000_000
  {
    ghost var first := digits[from..from + 1];
    assert first[..0] == [];
    word := digits[from];
    var index := from + 1;
    while index < to
      invariant from < index <= to
      invariant word == Value(digits[from..index])
    {
      assert digits[from..index + 1][..index - from] == digits[from..index];
      SeventeenDigits(digits[from..index + 1]);
      word := word * 10 + digits[index];
      index := index + 1;
    }
    SeventeenDigits(digits[from..to]);
  }

  lemma SeventeenDigits(ds: seq<Digit>)
    requires |ds| <= 17
    ensures Value(ds) < 100_000_000_000_000_000
  {
    ValueBound(ds);
    Pow10Monotone(|ds|, 17);
    Pow10Of34();
  }

  /** The significand in two words of 17 digits each, multiplied out and added with the carry. */
  method EncodeSignificand(digits: array<Digit>, last: nat, significant: nat) returns (significand: Bits)
    requires digits.Length == MAX_DIGITS && (significant > 0 ==> last < MAX_DIGITS)
    ensures significand.high * 0x1_0000_0000_0000_0000 + significand.low
         == (if significant == 0 then 0 else Value(digits[..last + 1]))
  {
    var high: u64, low: u64 := 0, 0;
    if significant == 0 {
    } else if last < 17 {
      low := Accumulate(digits, 0, last + 1);
      assert digits[0..last + 1] == digits[..last + 1];
    } else {
      high := Accumulate(digits, 0, last - 16);
      low := Accumulate(digits, last - 16, last + 1);
      assert digits[..last + 1] == digits[0..last - 16] + digits[last - 16..last + 1];
      ValueAppend(digits[0..last - 16], digits[last - 16..last + 1]);
      Pow10Of34();
    }
    significand := Mul64x64(high, 100_000_000_000_000_000);
    ghost var product := significand.high * 0x1_0000_0000_0000_0000 + significand.low;
    assert product == high as int * 100_000_000_000_000_000;
    significand := AddWithCarry(significand, low);
  }

  method AddWithCarry(product: Bits, low: u64) returns (sum: Bits)
    requires product.high < 0xffff_ffff_ffff_ffff
    ensures sum.high * 0x1_0000_0000_0000_0000 + sum.low
         == product.high * 0x1_0000_0000_0000_0000 + product.low + low
  {
    sum := product.(low := Wrap64(product.low as int + low));
    if sum.low < low {
      sum := sum.(high := sum.high + 1);
    }
  }

  /** Sign, exponent and significand in their fields, in the large form when the significand needs 114 bits. */
  method Pack(negative: bool, exponent: int, significand: Bits) returns (dec: Bits)
    requires EXPONENT_MIN <= exponent <= EXPONENT_MAX && significand.high < 0x2_8000_0000_0000
    ensures Negative(dec) == negative && Combination(dec) < 30
    ensures BiasedExponent(dec) == exponent + EXPONENT_BIAS
    ensures RawCoefficient(dec) == significand.high * 0x1_0000_0000_0000_0000 + significand.low
    ensures LargeForm(dec) == (significand.high >= 0x2_0000_0000_0000)
  {
    var biasedExponent := exponent + EXPONENT_BIAS;
    var high: nat;
    if significand.high / 0x2_0000_0000_0000 % 2 == 1 {
      high := 0x6000_0000_0000_0000 + biasedExponent % 0x4000 * 0x8000_0000_0000 + significand.high % 0x8000_0000_0000;
      assert 0x2_0000_0000_0000 + significand.high % 0x8000_0000_0000 == significand.high;
      LargeFields(high, if negative then 1 else 0, biasedExponent, significand.high % 0x8000_0000_0000);
    } else {
      high := biasedExponent % 0x4000 * 0x2_0000_0000_0000 + significand.high % 0x2_0000_0000_0000;
      assert significand.high % 0x2_0000_0000_0000 == significand.high;
      PackedFields(if negative then high + 0x8000_0000_0000_0000 else high, if negative then 1 else 0, biasedExponent,
                   significand.high);
    }
    if negative {
      high := high + 0x8000_0000_0000_0000;
    }
    dec := Bits(high, significand.low);
    assert LargeForm(dec) ==> 0x2_0000_0000_0000 + dec.high % 0x8000_0000_0000 == significand.high;
    assert !LargeForm(dec) ==> dec.high % 0x2_0000_0000_0000 == significand.high;
  }

  lemma LargeFields(unsigned: nat, sign: nat, biased: nat, top: nat)
    requires sign < 2 && biased < 0x3000 && top < 0x8000_0000_0000
    requires unsigned == 0x6000_0000_0000_0000 + biased * 0x8000_0000_0000 + top
    ensures var high := unsigned + sign * 0x8000_0000_0000_0000;
            && high / 0x8000_0000_0000_0000 == sign
            && 24 <= high / 0x400_0000_0000_0000 % 32 < 30
            && high / 0x8000_0000_0000 % 0x4000 == biased && high % 0x8000_0000_0000 == top
  {
    var high := unsigned + sign * 0x8000_0000_0000_0000;
    assert high / 0x8000_0000_0000 == sign * 0x1_0000 + 0xc000 + biased;
    assert high / 0x400_0000_0000_0000 == sign * 32 + 24 + biased / 0x800;
  }

  /** A significand below 10^34 never needs the large form, so the result is the canonical encoding. */
  lemma PackedIsCanonical(dec: Bits, v: Number)
    requires v.Finite? && Representable(v) && Negative(dec) == v.negative && Combination(dec) < 30
    requires BiasedExponent(dec) == v.exponent + EXPONENT_BIAS && RawCoefficient(dec) == v.coefficient
    ensures !LargeForm(dec) && dec == Encode(v)
  {
    EncodeDecode(dec);
  }

  /**
   * Both normalisation loops, for the digits after the leading zeros. They accept a last digit behind the stored ones
   * exactly when zeros are shifted past them.
   */
  method NormaliseExponent(text: string, offset: nat, digits: array<Digit>, stored: nat, digitCount: nat,
                           x: int, significant: nat, ghost stripped: seq<Digit>)
    returns (ok: bool, exponent: int, last: nat)
    requires digits.Length == MAX_DIGITS && Stores(digits[..], stored, stripped) && digitCount == |stripped|
    requires significant == 0 <==> stripped == []
    ensures stripped == [] ==> ok && exponent == Clamp(x)
    ensures stripped != [] ==> (ok && last >= MAX_DIGITS <==> ShiftsPast(|stripped|, x))
    ensures stripped != [] && !ShiftsPast(|stripped|, x) ==>
              match Normalise(stripped, x, text, offset)
              case Reject => !ok
              case Fit(kept, padding, e) => ok && exponent == e && last + 1 == kept + padding
  {
    var count := digitCount;
    last := 0;
    if stored == 0 {
      count := 1;
    } else {
      last := stored - 1;
    }
    ok, exponent, last := ShiftDown(x, last, significant);
    if !ok {
      return;
    }
    ok, exponent, last := ShiftUp(text, offset, digits, exponent, count, significant, last);
    assert forall i :: 0 <= i < stored ==> digits[i] == digits[..][i] == stripped[i];
  }

  method EncodeNumber(negative: bool, exponent: int, digits: array<Digit>, last: nat, significant: nat, ghost v: Number)
    returns (dec: Bits)
    requires digits.Length == MAX_DIGITS && (significant > 0 ==> last < MAX_DIGITS) && Representable(v)
    requires v == Finite(negative, if significant == 0 then 0 else Value(digits[..last + 1]), exponent)
    ensures dec == Encode(v)
  {
    var significand := EncodeSignificand(digits, last, significant);
    dec := Pack(negative, exponent, significand);
    PackedIsCanonical(dec, v);
  }

  /** Everything after the scan: trimming, normalisation, the rounding check and the encoding. */
  method FinishNumber(text: string, negative: bool, offset: nat, c: Counters, digits: array<Digit>, exponentRead: int,
                      ghost n: Syntax)
    returns (ok: bool, dec: Bits)
    requires n.Numeral? && n.negative == negative && n.Offset() == offset && n.exponent == exponentRead
    requires Counts(c, n.point, n.fraction, n.digits, Strip(n.digits))
    requires digits.Length == MAX_DIGITS && Stores(digits[..], c.stored, Strip(n.digits))
    requires !ReadsPastDigits(n)
    requires c.count > 0 ==>
               exists p :: c.firstNonzero + offset <= p < c.firstNonzero + offset + c.count && At(text, p) != '0'
    ensures ok == Finish(text, n).Some?
    ensures dec == if ok then Encode(Finish(text, n).value) else NAN_BITS
  {
    hide Finish, Strip, Value, Significant;
    dec := NAN_BITS;
    ghost var stripped := Strip(n.digits);
    var significant := 0;
    if c.stored > 0 {
      significant := TrimZeros(text, c.firstNonzero + offset, c.count);
      SomeSignificant(text, c.firstNonzero + offset, c.count);
    }
    var start;
    if SizeT(exponentRead) <= c.fraction && c.fraction - SizeT(exponentRead) > 0x4000 {
      start := EXPONENT_MIN;
    } else {
      start := Int32(exponentRead - c.fraction);
    }
    var exponent, last;
    ok, exponent, last := NormaliseExponent(text, offset, digits, c.stored, c.count, start, significant, stripped);
    FinishIs(text, n, c, digits[..], significant, ok, exponent, last);
    if !ok {
      return;
    }
    if last + 1 < significant {
      if At(text, c.firstNonzero + last + offset + 1) != '0' {
        ok := false;
        return;
      }
    }
    ghost var v := Finish(text, n).value;
    dec := EncodeNumber(negative, exponent, digits, last, significant, v);
  }

  lemma {:induction false} SomeSignificant(text: string, base: nat, count: nat)
    requires exists p :: base <= p < base + count && At(text, p) != '0'
    ensures Significant(text, base, count) > 0
  {
    if At(text, base + count - 1) == '0' {
      SomeSignificant(text, base, count - 1);
    }
  }

  /** The digits kept after normalisation are the leading stripped digits followed by the padding. */
  lemma KeptDigits(digits: seq<Digit>, stored: nat, stripped: seq<Digit>, text: string, offset: nat, x: int, last: nat)
    requires Stores(digits, stored, stripped)
    requires stripped != [] ==>
               var s := Normalise(stripped, x, text, offset);
               s.Fit? && last + 1 == s.kept + s.padding
    ensures stripped != [] ==>
              var s := Normalise(stripped, x, text, offset);
              last < MAX_DIGITS && Value(digits[..last + 1]) == Coefficient(stripped[..s.kept], s.padding)
  {
    if stripped != [] {
      var s := Normalise(stripped, x, text, offset);
      assert s.kept <= stored;
      assert digits[..last + 1] == stripped[..s.kept] + digits[s.kept..last + 1];
      ValueAppend(stripped[..s.kept], digits[s.kept..last + 1]);
      if s.padding > 0 {
        ValueOfZeros(digits[s.kept..last + 1]);
      }
    }
  }

  /** How the outcome follows from the normalised exponent and the rounding check. */
  lemma FinishIs(text: string, n: Syntax, c: Counters, digits: seq<Digit>, significant: nat, ok: bool, exponent: int,
                 last: nat)
    requires n.Numeral? && Counts(c, n.point, n.fraction, n.digits, Strip(n.digits))
    requires Stores(digits, c.stored, Strip(n.digits))
    requires significant == if c.count == 0 then 0 else Significant(text, c.firstNonzero + n.Offset(), c.count)
    requires c.count > 0 ==> significant > 0
    requires c.count == 0 ==> ok && exponent == Clamp(StartExponent(n.exponent, n.fraction))
    requires c.count > 0 ==>
               match Normalise(Strip(n.digits), StartExponent(n.exponent, n.fraction), text, n.Offset())
               case Reject => !ok
               case Fit(kept, padding, e) => ok && exponent == e && last + 1 == kept + padding
    ensures var rounds := last + 1 < significant && At(text, c.firstNonzero + last + n.Offset() + 1) != '0';
            && Finish(text, n).Some? == (ok && !rounds)
            && (ok && !rounds ==>
                  && (significant > 0 ==> last < MAX_DIGITS)
                  && Finish(text, n).value
                     == Finite(n.negative, if significant == 0 then 0 else Value(digits[..last + 1]), exponent))
  {
    var stripped := Strip(n.digits);
    if ok {
      KeptDigits(digits, c.stored, stripped, text, n.Offset(), StartExponent(n.exponent, n.fraction), last);
    }
  }

  /** Among the characters from the first non-zero digit on, one is not the character 0: that digit, or the point. */
  lemma NonZeroCharacter(r: string) returns (q: nat)
    requires !TwoPoints(r) && Strip(Digits(r)) != []
    requires forall j :: 0 <= j < |r| ==> InSignificand(r[j])
    ensures var base := |Digits(r)| - |Strip(Digits(r))| + if '.' in r then 1 else 0;
            base <= q < base + |Strip(Digits(r))| && q < |r| && r[q] != '0'
  {
    var all := Digits(r);
    var first := |all| - |Strip(all)|;
    DigitPositions(r);
    AboutStrip(all);
    AboutPointIndex(r);
    assert all[first] != 0;
    var p := PointIndex(r);
    q := if p == |r| then first else if p > first then p else first + 1;
    assert q != p ==> all[first] == DigitOf(r[q]);
  }

  /** The trimming loop always stops. */
  lemma TrimmingStops(text: string, start: nat, end: nat, base: nat, count: nat)
    requires start <= end <= |text| && !TwoPoints(text[start..end]) && count > 0
    requires forall j :: start <= j < end ==> InSignificand(text[j])
    requires var all := Digits(text[start..end]);
             count == |Strip(all)| && base == start + (|all| - count) + if '.' in text[start..end] then 1 else 0
    ensures exists p :: base <= p < base + count && At(text, p) != '0'
  {
    var q := NonZeroCharacter(text[start..end]);
    assert At(text, start + q) != '0';
  }

  method ReadExponent(text: string, at: nat) returns (ok: bool, exponent: int, end: nat)
    requires at <= |text|
    ensures ok == ParseExponent(text, at).Some?
    ensures ok ==> (exponent, end) == ParseExponent(text, at).value
  {
    ok, exponent, end := true, 0, at;
    if At(text, end) == 'e' || At(text, end) == 'E' {
      var read := ReadInt(text, end + 1);
      if read.None? {
        ok := false;
        return;
      }
      exponent, end := read.value.0, read.value.1;
    }
  }

  method ReadSpecial(word: string, isNegative: bool) returns (ok: bool, dec: Bits)
    ensures ok == ParseSpecial(word, isNegative).Special?
    ensures dec == if ok then Encode(ParseSpecial(word, isNegative).number) else NAN_BITS
  {
    var isInf := Istreq(word, "inf");
    var isInfinity := Istreq(word, "infinity");
    if isInf || isInfinity {
      return true, InfinityBits(isNegative);
    }
    ok := Istreq(word, "nan");
    dec := NAN_BITS;
  }

  method ReadNumber(text: string, len: int, includesSign: bool, isNegative: bool) returns (ok: bool, dec: Bits)
    requires includesSign ==> |text| > 0
    requires var n := ParseNumeral(text, len, includesSign, isNegative); n.Numeral? ==> !ReadsPastDigits(n)
    ensures var n := ParseNumeral(text, len, includesSign, isNegative);
            var v := if n.Numeral? then Finish(text, n) else None;
            ok == v.Some? && dec == if ok then Encode(v.value) else NAN_BITS
  {
    dec := NAN_BITS;
    var start := if includesSign then 1 else 0;
    var digits := new Digit[34](_ => 0);
    var end, c;
    ok, end, c := ReadDigits(text, start, if len == -1 then |text| else len, digits);
    if !ok {
      return;
    }
    if c.point && c.read == 0 {
      ok := false;
      return;
    }
    var exponent, stop;
    ok, exponent, stop := ReadExponent(text, end);
    if !ok {
      return;
    }
    if (len == -1 || stop < len) && stop < |text| {
      ok := false;
      return;
    }
    ghost var n := Numeral(isNegative, includesSign, Digits(text[start..end]), c.point, c.fraction, exponent);
    var offset := start + if c.point then 1 else 0;
    if c.count > 0 {
      TrimmingStops(text, start, end, c.firstNonzero + offset, c.count);
    }
    ok, dec := FinishNumber(text, isNegative, offset, c, digits, exponent, n);
  }

  /** The whole parser, for a NUL-terminated string and an optional length. */
  method FromString(text: string, len: int) returns (ok: bool, dec: Bits)
    requires InDomain(text, len)
    ensures ok == Meaning(text, len).Some?
    ensures dec == if ok then Encode(Meaning(text, len).value) else NAN_BITS
  {
    var start := 0;
    var isNegative, includesSign := false, false;
    if At(text, 0) == '+' || At(text, 0) == '-' {
      isNegative := At(text, 0) == '-';
      start := 1;
      includesSign := true;
    }
    if !IsDigit(At(text, start)) && At(text, start) != '.' {
      ok, dec := ReadSpecial(text[start..], isNegative);
    } else {
      ok, dec := ReadNumber(text, len, includesSign, isNegative);
    }
  }
}
