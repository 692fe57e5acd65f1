/** Powers of ten, digit sequences and the numbers they denote. */
module DecimalDigits {

  type Digit = d: nat | d < 10

  function Pow10(n: nat): (p: nat)
    ensures p > 0
  {
    if n == 0 then 1 else 10 * Pow10(n - 1)
  }

  /** The number a digit sequence denotes, most significant digit first. */
  function Value(ds: seq<Digit>): nat {
    if ds == [] then 0 else Value(ds[..|ds| - 1]) * 10 + ds[|ds| - 1]
  }

  /** The shortest digit sequence that denotes `v`. */
  function Shortest(v: nat): (ds: seq<Digit>)
    ensures |ds| > 0
  {
    if v < 10 then [v] else Shortest(v / 10) + [v % 10]
  }

  function Zeros(n: nat): (ds: seq<Digit>)
    ensures |ds| == n
  {
    if n == 0 then [] else Zeros(n - 1) + [0]
  }

  lemma {:induction false} ZerosAreZero(n: nat)
    ensures forall i :: 0 <= i < n ==> Zeros(n)[i] == 0
  {
    if n > 0 {
      ZerosAreZero(n - 1);
    }
  }

  /** The digits after the leading zeros. */
  function Strip(ds: seq<Digit>): (r: seq<Digit>)
    ensures |r| <= |ds|
  {
    if ds == [] || ds[0] != 0 then ds else Strip(ds[1..])
  }

  /** Only zeros are stripped, and all of the leading ones. */
  lemma {:induction false} AboutStrip(ds: seq<Digit>)
    ensures Strip(ds) == ds[|ds| - |Strip(ds)|..]
    ensures Strip(ds) != [] ==> Strip(ds)[0] != 0
    ensures forall i :: 0 <= i < |ds| - |Strip(ds)| ==> ds[i] == 0
  {
    if ds != [] && ds[0] == 0 {
      AboutStrip(ds[1..]);
      forall i | 0 <= i < |ds| - |Strip(ds)| ensures ds[i] == 0 {
        if i > 0 {
          assert ds[i] == ds[1..][i - 1];
        }
      }
    }
  }

  lemma TimesTen(a: nat, b: nat)
    ensures 10 * (a * b) == (10 * a) * b
  {
  }

  lemma Pow10Add(m: nat, n: nat)
    ensures Pow10(m + n) == Pow10(m) * Pow10(n)
  {
    if m > 0 {
      Pow10Add(m - 1, n);
      TimesTen(Pow10(m - 1), Pow10(n));
    }
  }

  lemma Pow10Monotone(m: nat, n: nat)
    requires m <= n
    ensures Pow10(m) <= Pow10(n)
  {
    if m < n {
      Pow10Monotone(m, n - 1);
    }
  }

  lemma ShiftAndAdd(va: nat, p: nat, vb: nat, d: nat)
    ensures (va * p + vb) * 10 + d == va * (10 * p) + (vb * 10 + d)
  {
    TimesTen(p, va);
  }

  lemma {:induction false} ValueAppend(a: seq<Digit>, b: seq<Digit>)
    ensures Value(a + b) == Value(a) * Pow10(|b|) + Value(b)
  {
    if b == [] {
      assert a + b == a;
    } else {
      var b' := b[..|b| - 1];
      assert (a + b)[..|a + b| - 1] == a + b';
      ValueAppend(a, b');
      ShiftAndAdd(Value(a), Pow10(|b'|), Value(b'), b[|b| - 1]);
    }
  }

  lemma {:induction false} ValueBound(ds: seq<Digit>)
    ensures Value(ds) < Pow10(|ds|)
  {
    if ds != [] {
      ValueBound(ds[..|ds| - 1]);
    }
  }

  lemma {:induction false} ValueOfZeros(ds: seq<Digit>)
    requires forall i :: 0 <= i < |ds| ==> ds[i] == 0
    ensures Value(ds) == 0
  {
    if ds != [] {
      ValueOfZeros(ds[..|ds| - 1]);
    }
  }

  lemma ValueOfStrip(ds: seq<Digit>)
    ensures Value(Strip(ds)) == Value(ds)
  {
    var k := |ds| - |Strip(ds)|;
    AboutStrip(ds);
    ValueOfZeros(ds[..k]);
    ValueAppend(ds[..k], ds[k..]);
    assert ds[..k] + ds[k..] == ds;
  }

  lemma {:induction false} ValueOfShortest(v: nat)
    ensures Value(Shortest(v)) == v
    ensures v > 0 ==> Shortest(v)[0] != 0
  {
    if v < 10 {
      assert [v][..0] == [];
    } else {
      ValueOfShortest(v / 10);
      assert Shortest(v)[..|Shortest(v)| - 1] == Shortest(v / 10);
    }
  }

  /** A digit sequence without a leading zero is the shortest one for its number. */
  lemma {:induction false} ShortestIsUnique(ds: seq<Digit>)
    requires ds != [] && (|ds| == 1 || ds[0] != 0)
    ensures Shortest(Value(ds)) == ds
  {
    var front := ds[..|ds| - 1];
    if |ds| == 1 {
      assert Value(ds) == ds[0];
    } else {
      ShortestIsUnique(front);
      LeadingDigit(front);
      assert ds == front + [ds[|ds| - 1]];
    }
  }

  lemma {:induction false} LeadingDigit(ds: seq<Digit>)
    requires ds != [] && ds[0] != 0
    ensures Value(ds) >= Pow10(|ds| - 1)
  {
    if |ds| > 1 {
      LeadingDigit(ds[..|ds| - 1]);
    } else {
      assert Value(ds) == Value(ds[..0]) * 10 + ds[0];
    }
  }

  lemma {:induction false} ShortestLength(v: nat, n: nat)
    requires v < Pow10(n) && n > 0
    ensures |Shortest(v)| <= n
  {
    if v >= 10 {
      assert Pow10(1) == 10;
      ShortestLength(v / 10, n - 1);
    }
  }

  /** Stripping removes exactly a run of zeros that ends before a non-zero digit. */
  lemma StripAt(ds: seq<Digit>, k: nat)
    requires k <= |ds| && forall i :: 0 <= i < k ==> ds[i] == 0
    requires k < |ds| ==> ds[k] != 0
    ensures Strip(ds) == ds[k..]
  {
    AboutStrip(ds);
  }

  lemma {:induction false} StripAppend(ds: seq<Digit>, d: Digit)
    ensures Strip(ds + [d]) == if Strip(ds) == [] && d == 0 then [] else Strip(ds) + [d]
  {
    if ds == [] {
      assert [] + [d] == [d];
      assert [d][1..] == [];
    } else {
      assert (ds + [d])[1..] == ds[1..] + [d];
      if ds[0] == 0 {
        StripAppend(ds[1..], d);
      }
    }
  }
}
