/** The decimal128 value type, its 128-bit encoding and the two wide-arithmetic kernels. */
module Decimal128 {
  import opened Common
  import opened DecimalDigits

  const TWO_113: nat := 0x2_0000_0000_0000_0000_0000_0000_0000
  const TEN_34: nat := 10_000_000_000_000_000_000_000_000_000_000_000

  const EXPONENT_MAX: int := 6111
  const EXPONENT_MIN: int := -6176
  const EXPONENT_BIAS: int := 6176
  const MAX_DIGITS: nat := 34

  type u32 = x: nat | x < 0x1_0000_0000
  type u64 = x: nat | x < 0x1_0000_0000_0000_0000

  function High32(x: nat): nat { x / 0x1_0000_0000 }
  function Low32(x: nat): u32 { x % 0x1_0000_0000 }

  /** The two 64-bit halves of an encoded decimal. */
  datatype Bits = Bits(high: u64, low: u64)

  datatype Number =
    | Finite(negative: bool, coefficient: nat, exponent: int)
    | Infinity(negative: bool)
    | NaN

  const NAN_BITS: Bits := Bits(0x7c00_0000_0000_0000, 0)

  function InfinityBits(negative: bool): Bits {
    Bits(if negative then 0xf800_0000_0000_0000 else 0x7800_0000_0000_0000, 0)
  }

  lemma Pow10Of34()
    ensures Pow10(34) == TEN_34 && Pow10(17) == 100_000_000_000_000_000
  {
    assert Pow10(8) == 100_000_000;
    Pow10Add(8, 8);
    assert Pow10(17) == 10 * Pow10(16);
    Pow10Add(17, 17);
  }

  predicate Representable(v: Number) {
    v.Finite? ==> v.coefficient < TEN_34 && EXPONENT_MIN <= v.exponent <= EXPONENT_MAX
  }

  // ---- reading the encoding: section 3.5.2 of IEEE 754-2008, binary integer significand ----

  predicate Negative(d: Bits) {
    d.high / 0x8000_0000_0000_0000 == 1
  }

  /** Bits 1 to 5 from the sign bit. */
  function Combination(d: Bits): nat {
    d.high / 0x400_0000_0000_0000 % 32
  }

  predicate LargeForm(d: Bits) {
    Combination(d) / 8 == 3
  }

  function BiasedExponent(d: Bits): nat {
    if LargeForm(d) then d.high / 0x8000_0000_0000 % 0x4000 else d.high / 0x2_0000_0000_0000 % 0x4000
  }

  /** The significand as written in the encoding, before the range check of the standard. */
  function RawCoefficient(d: Bits): nat {
    if LargeForm(d) then (0x2_0000_0000_0000 + d.high % 0x8000_0000_0000) * 0x1_0000_0000_0000_0000 + d.low
    else d.high % 0x2_0000_0000_0000 * 0x1_0000_0000_0000_0000 + d.low
  }

  /** The number an encoding stands for; a significand of 10^34 or more stands for zero. */
  function Decode(d: Bits): Number {
    if Combination(d) == 30 then Infinity(Negative(d))
    else if Combination(d) == 31 then NaN
    else
      var c := RawCoefficient(d);
      Finite(Negative(d), if c < TEN_34 then c else 0, BiasedExponent(d) - EXPONENT_BIAS)
  }

  /** The canonical encoding of a representable number. */
  function Encode(v: Number): (d: Bits)
    requires Representable(v)
  {
    match v
    case Finite(negative, c, e) =>
      Bits((if negative then 0x8000_0000_0000_0000 else 0) + (e + EXPONENT_BIAS) * 0x2_0000_0000_0000
             + c / 0x1_0000_0000_0000_0000,
           c % 0x1_0000_0000_0000_0000)
    case Infinity(negative) => InfinityBits(negative)
    case NaN => NAN_BITS
  }

  /** What the standard calls a canonical encoding. */
  predicate Canonical(d: Bits) {
    if Combination(d) == 30 then d == InfinityBits(Negative(d))
    else if Combination(d) == 31 then d == NAN_BITS
    else !LargeForm(d) && RawCoefficient(d) < TEN_34
  }

  lemma DecodeIsRepresentable(d: Bits)
    ensures Representable(Decode(d))
  {
    if Combination(d) < 30 {
      BiasedFits(d);
      hide BiasedExponent, RawCoefficient, Combination;
    }
  }

  lemma BiasedFits(d: Bits)
    requires Combination(d) < 30
    ensures BiasedExponent(d) < 0x3000
  {
    var fields := d.high / 0x8000_0000_0000;
    assert d.high / 0x2_0000_0000_0000 == fields / 4 && d.high / 0x400_0000_0000_0000 == fields / 0x800;
  }

  lemma PackedFields(high: nat, sign: nat, biased: nat, top: nat)
    requires sign < 2 && biased < 0x3000 && top < 0x2_0000_0000_0000
    requires high == sign * 0x8000_0000_0000_0000 + biased * 0x2_0000_0000_0000 + top
    ensures high / 0x8000_0000_0000_0000 == sign
    ensures high / 0x400_0000_0000_0000 % 32 == biased / 0x200 < 24
    ensures high / 0x2_0000_0000_0000 % 0x4000 == biased
    ensures high % 0x2_0000_0000_0000 == top
  {
    assert high / 0x2_0000_0000_0000 == sign * 0x4000 + biased;
    assert high / 0x400_0000_0000_0000 == sign * 32 + biased / 0x200;
  }

  /** Encoding loses nothing: every representable number is read back unchanged. */
  lemma DecodeEncode(v: Number)
    requires Representable(v)
    ensures Decode(Encode(v)) == v && Canonical(Encode(v))
  {
    if v.Finite? {
      var top := v.coefficient / 0x1_0000_0000_0000_0000;
      PackedFields(Encode(v).high, if v.negative then 1 else 0, v.exponent + EXPONENT_BIAS, top);
      assert v.coefficient == top * 0x1_0000_0000_0000_0000 + v.coefficient % 0x1_0000_0000_0000_0000;
    }
  }

  /** On canonical encodings, encoding is also the right inverse. */
  lemma EncodeDecode(d: Bits)
    requires Canonical(d)
    ensures Encode(Decode(d)) == d
  {
    if Combination(d) < 30 {
      var top := d.high / 0x2_0000_0000_0000;
      assert d.high == top * 0x2_0000_0000_0000 + d.high % 0x2_0000_0000_0000;
      assert top / 512 == d.high / 0x400_0000_0000_0000;
      assert top / 0x4000 == d.high / 0x8000_0000_0000_0000;
      var c := RawCoefficient(d);
      assert c / 0x1_0000_0000_0000_0000 == d.high % 0x2_0000_0000_0000 && c % 0x1_0000_0000_0000_0000 == d.low;
    }
  }

  // ---- 128-bit by 10^9 division ----

  /** Four 32-bit words, high to low. */
  function WordsValue(w: seq<u32>): nat {
    if w == [] then 0 else WordsValue(w[..|w| - 1]) * 0x1_0000_0000 + w[|w| - 1]
  }

  lemma {:induction false} WordsOfZeros(w: seq<u32>)
    requires forall i :: 0 <= i < |w| ==> w[i] == 0
    ensures WordsValue(w) == 0
  {
    if w != [] {
      WordsOfZeros(w[..|w| - 1]);
    }
  }

  method Divide1B(value: seq<u32>) returns (quotient: seq<u32>, rem: u32)
    requires |value| == 4
    ensures |quotient| == 4 && rem < 1_000_000_000
    ensures WordsValue(value) == WordsValue(quotient) * 1_000_000_000 + rem
  {
    var parts: seq<u32> := value;
    if parts[0] == 0 && parts[1] == 0 && parts[2] == 0 && parts[3] == 0 {
      WordsOfZeros(value);
      return value, 0;
    }
    var r: u64 := 0;
    for i := 0 to 4
      invariant |parts| == 4 && r < 1_000_000_000
      invariant parts[i..] == value[i..]
      invariant WordsValue(value[..i]) == WordsValue(parts[..i]) * 1_000_000_000 + r
    {
      var dividend: u64 := r * 0x1_0000_0000 + value[i];
      assert value[..i + 1][..i] == value[..i];
      var before := parts[..i];
      assert parts[i] == value[i];
      parts := parts[i := dividend / 1_000_000_000];
      r := dividend % 1_000_000_000;
      assert parts[..i + 1][..i] == before;
    }
    assert parts[..4] == parts && value[..4] == value;
    quotient, rem := parts, r;
  }

  // ---- 64 by 64 bit multiplication ----

  lemma SplitProduct(left: nat, right: nat, lh: nat, ll: nat, rh: nat, rl: nat)
    requires left == lh * 0x1_0000_0000 + ll && right == rh * 0x1_0000_0000 + rl
    ensures left * right == lh * rh * 0x1_0000_0000_0000_0000 + (lh * rl + ll * rh) * 0x1_0000_0000 + ll * rl
  {
    calc {
      left * right;
      (lh * 0x1_0000_0000) * (rh * 0x1_0000_0000) + (lh * 0x1_0000_0000) * rl + ll * (rh * 0x1_0000_0000) + ll * rl;
      { assert (lh * 0x1_0000_0000) * (rh * 0x1_0000_0000) == lh * rh * 0x1_0000_0000_0000_0000; }
      { assert (lh * 0x1_0000_0000) * rl == lh * rl * 0x1_0000_0000; }
      { assert ll * (rh * 0x1_0000_0000) == ll * rh * 0x1_0000_0000; }
      lh * rh * 0x1_0000_0000_0000_0000 + lh * rl * 0x1_0000_0000 + ll * rh * 0x1_0000_0000 + ll * rl;
    }
  }

  lemma ProductBound(a: nat, b: nat, n: nat)
    requires a <= n && b <= n
    ensures a * b <= n * n
  {
    assert a * b <= n * b <= n * n;
  }

  lemma ShiftedMiddle(m1: nat, m0: nat)
    requires m0 < 0x1_0000_0000
    ensures (m1 * 0x1_0000_0000 + m0) * 0x1_0000_0000 % 0x1_0000_0000_0000_0000 == m0 * 0x1_0000_0000
  {
  }

  /** The carries of the four partial products, none lost and none wrapping. */
  lemma Carries(hh: nat, hl: nat, lh: nat, ll: nat, mid: nat, high: nat, low: nat)
    requires hl <= 0xffff_ffff * 0xffff_ffff && lh <= 0xffff_ffff * 0xffff_ffff && ll <= 0xffff_ffff * 0xffff_ffff
    requires hh * 0x1_0000_0000_0000_0000 + (hl + lh) * 0x1_0000_0000 + ll
          <= 0xffff_ffff_ffff_ffff * 0xffff_ffff_ffff_ffff
    requires mid == Low32(hl) + lh + High32(ll)
    requires high == hh + High32(hl) + High32(mid)
    requires low == Low32(mid) * 0x1_0000_0000 + Low32(ll)
    ensures mid < 0x1_0000_0000_0000_0000 && high < 0x1_0000_0000_0000_0000 && low < 0x1_0000_0000_0000_0000
    ensures Wrap64(mid * 0x1_0000_0000) == Low32(mid) * 0x1_0000_0000
    ensures high * 0x1_0000_0000_0000_0000 + low
         == hh * 0x1_0000_0000_0000_0000 + (hl + lh) * 0x1_0000_0000 + ll
  {
    ShiftedMiddle(High32(mid), Low32(mid));
  }

  /** What the four partial products of two 64-bit numbers add up to. */
  lemma PartialProducts(left: u64, right: u64, hh: nat, hl: nat, lh: nat, ll: nat)
    requires hh == High32(left) * High32(right) && hl == High32(left) * Low32(right)
    requires lh == Low32(left) * High32(right) && ll == Low32(left) * Low32(right)
    ensures hh <= 0xffff_ffff * 0xffff_ffff && hl <= 0xffff_ffff * 0xffff_ffff
    ensures lh <= 0xffff_ffff * 0xffff_ffff && ll <= 0xffff_ffff * 0xffff_ffff
    ensures left * right == hh * 0x1_0000_0000_0000_0000 + (hl + lh) * 0x1_0000_0000 + ll
    ensures left * right <= 0xffff_ffff_ffff_ffff * 0xffff_ffff_ffff_ffff
  {
    ProductBound(High32(left), High32(right), 0xffff_ffff);
    ProductBound(High32(left), Low32(right), 0xffff_ffff);
    ProductBound(Low32(left), High32(right), 0xffff_ffff);
    ProductBound(Low32(left), Low32(right), 0xffff_ffff);
    ProductBound(left, right, 0xffff_ffff_ffff_ffff);
    SplitProduct(left, right, High32(left), Low32(left), High32(right), Low32(right));
  }

  lemma WrapIsIdentity(x: nat)
    requires x < 0x1_0000_0000_0000_0000
    ensures Wrap64(x) == x
  {
  }

  /** Every sum wraps at 64 bits, and none actually does. */
  method AddPartialProducts(hh: u64, hl: u64, lh: u64, ll: u64) returns (product: Bits)
    requires hl <= 0xffff_ffff * 0xffff_ffff && lh <= 0xffff_ffff * 0xffff_ffff && ll <= 0xffff_ffff * 0xffff_ffff
    requires hh * 0x1_0000_0000_0000_0000 + (hl + lh) * 0x1_0000_0000 + ll
          <= 0xffff_ffff_ffff_ffff * 0xffff_ffff_ffff_ffff
    ensures product.high * 0x1_0000_0000_0000_0000 + product.low
         == hh * 0x1_0000_0000_0000_0000 + (hl + lh) * 0x1_0000_0000 + ll
  {
    ghost var mid := Low32(hl) + lh + High32(ll);
    ghost var high, low := hh + High32(hl) + High32(mid), Low32(mid) * 0x1_0000_0000 + Low32(ll);
    Carries(hh, hl, lh, ll, mid, high, low);
    WrapIsIdentity(hh + High32(hl));
    WrapIsIdentity(mid);
    WrapIsIdentity(high);
    WrapIsIdentity(low);
    var productHigh := Wrap64(hh + High32(hl));
    var productMid: nat := Wrap64(Low32(hl) + lh + High32(ll));
    productHigh := Wrap64(productHigh + High32(productMid));
    var productLow := Wrap64(Wrap64(productMid * 0x1_0000_0000) + Low32(ll));
    product := Bits(productHigh, productLow);
  }

  /** The exact 128-bit product. */
  method Mul64x64(left: u64, right: u64) returns (product: Bits)
    ensures product.high * 0x1_0000_0000_0000_0000 + product.low == left * right
  {
    if left == 0 && right == 0 {
      return Bits(0, 0);
    }
    var leftHigh: nat, leftLow: nat := High32(left), Low32(left);
    var rightHigh: nat, rightLow: nat := High32(right), Low32(right);
    var hh, hl := leftHigh * rightHigh, leftHigh * rightLow;
    var lh, ll := leftLow * rightHigh, leftLow * rightLow;
    PartialProducts(left, right, hh, hl, lh, ll);
    product := AddPartialProducts(hh, hl, lh, ll);
  }

  // ---- the layout of the encoding ----

  function Bit(b: bool): nat { if b then 1 else 0 }

  /** The canonical encoding of a finite number: sign, biased exponent and significand side by side. */
  lemma FiniteLayout(negative: bool, c: nat, e: int)
    requires c < 10_000_000_000_000_000_000_000_000_000_000_000 && -6176 <= e <= 6111
    ensures var d := Encode(Finite(negative, c, e));
            d.high * 0x1_0000_0000_0000_0000 + d.low
            == Bit(negative) * 0x8000_0000_0000_0000_0000_0000_0000_0000
               + (e + 6176) * 0x2_0000_0000_0000_0000_0000_0000_0000 + c
  {
  }

  lemma SpecialLayout(negative: bool)
    ensures Encode(Infinity(negative)) == Bits(0x7800_0000_0000_0000 + Bit(negative) * 0x8000_0000_0000_0000, 0)
    ensures Encode(NaN) == Bits(0x7c00_0000_0000_0000, 0)
  {
  }

  /** What the small form stands for, canonical or not: 14 bits of exponent and 113 of significand. */
  lemma SmallForm(d: Bits, negative: bool, biased: nat, top: nat)
    requires biased < 0x3000 && top < 0x2_0000_0000_0000
    requires d.high == Bit(negative) * 0x8000_0000_0000_0000 + biased * 0x2_0000_0000_0000 + top
    ensures var c := top * 0x1_0000_0000_0000_0000 + d.low;
            Decode(d)
            == Finite(negative, if c < 10_000_000_000_000_000_000_000_000_000_000_000 then c else 0, biased - 6176)
  {
    PackedFields(d.high, Bit(negative), biased, top);
  }

  /** The large form has two set bits in front of the exponent; it always stands for a zero. */
  lemma LargeFormIsZero(d: Bits, negative: bool, biased: nat, rest: nat)
    requires biased < 0x3000 && rest < 0x8000_0000_0000
    requires d.high == Bit(negative) * 0x8000_0000_0000_0000 + 0x6000_0000_0000_0000 + biased * 0x8000_0000_0000 + rest
    ensures Decode(d) == Finite(negative, 0, biased - 6176)
  {
    var fields := d.high / 0x8000_0000_0000;
    assert fields == Bit(negative) * 0x1_0000 + 0xc000 + biased;
    assert d.high / 0x400_0000_0000_0000 == fields / 0x800 && d.high / 0x8000_0000_0000_0000 == fields / 0x1_0000;
    assert fields / 0x800 == Bit(negative) * 32 + 24 + biased / 0x800;
  }

  /** The five bits behind the sign tell the special values; what follows them does not matter. */
  lemma SpecialForms(d: Bits, negative: bool, rest: nat)
    requires rest < 0x400_0000_0000_0000
    ensures d.high == Bit(negative) * 0x8000_0000_0000_0000 + 0x7800_0000_0000_0000 + rest ==>
            Decode(d) == Infinity(negative)
    ensures d.high == Bit(negative) * 0x8000_0000_0000_0000 + 0x7c00_0000_0000_0000 + rest ==> Decode(d) == NaN
  {
    var x, y := Bit(negative) * 0x8000_0000_0000_0000 + 0x7800_0000_0000_0000 + rest,
                Bit(negative) * 0x8000_0000_0000_0000 + 0x7c00_0000_0000_0000 + rest;
    assert x / 0x400_0000_0000_0000 == Bit(negative) * 32 + 30 && y / 0x400_0000_0000_0000 == Bit(negative) * 32 + 31;
    assert x / 0x8000_0000_0000_0000 == Bit(negative);
  }
}
