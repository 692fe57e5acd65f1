/** Arcs of a circular byte buffer, and sizes that are whole numbers of elements. */
module RingArcs {
  import opened Common

  /** How far `to` is ahead of `from` in a buffer of `n` bytes. */
  function Distance(n: nat, from: nat, to: nat): nat
    requires from < n && to < n
  {
    if from <= to then to - from else n - from + to
  }

  /** The bytes from `from` up to `to`, around the end if need be. */
  function Arc(buf: seq<Byte>, from: nat, to: nat): (r: seq<Byte>)
    requires from < |buf| && to < |buf|
    ensures |r| == Distance(|buf|, from, to)
  {
    if from <= to then buf[from..to] else buf[from..] + buf[..to]
  }

  /** The position `k` bytes further on. */
  function Ahead(n: nat, from: nat, k: nat): (r: nat)
    requires from < n && k <= n
    ensures r < n
  {
    if from + k < n then from + k else from + k - n
  }

  lemma AheadIsMod(n: nat, from: nat, k: nat)
    requires from < n && k <= n
    ensures (from + k) % n == Ahead(n, from, k)
  {
    if from + k < n {
    } else if from + k == 2 * n {
    } else {
      ModSubtract(from + k, n);
    }
  }

  lemma ModSubtract(x: nat, n: nat)
    requires 0 < n <= x < 2 * n
    ensures x % n == x - n
  {
    var q := x / n;
    assert x == q * n + x % n;
    assert q >= 2 ==> q * n >= 2 * n;
    assert q == 0 ==> q * n == 0;
  }

  /** `mid` lies on the way from `from` to `to`. */
  predicate Between(n: nat, from: nat, mid: nat, to: nat) {
    from < n && mid < n && to < n && Distance(n, from, mid) + Distance(n, mid, to) == Distance(n, from, to)
  }

  lemma ArcSplit(buf: seq<Byte>, from: nat, mid: nat, to: nat)
    requires Between(|buf|, from, mid, to)
    ensures Arc(buf, from, to) == Arc(buf, from, mid) + Arc(buf, mid, to)
  {
  }

  // ---- whole elements ----

  predicate Aligned(x: int, e: nat) {
    e > 0 && x % e == 0
  }

  /** The number of whole elements in so many bytes. */
  function Count(x: nat, e: nat): nat
    requires e > 0
  {
    x / e
  }

  lemma CountAligned(x: nat, e: nat)
    requires Aligned(x, e)
    ensures Count(x, e) * e == x
  {
  }

  lemma AlignedSum(x: int, y: int, e: nat)
    requires Aligned(x, e) && Aligned(y, e)
    ensures Aligned(x + y, e) && Aligned(x - y, e)
  {
    var p, q := x / e, y / e;
    assert x == p * e && y == q * e;
    MultipleIsAligned(p + q, e);
    MultipleIsAligned(p - q, e);
    assert (p + q) * e == x + y && (p - q) * e == x - y;
  }

  lemma MultipleIsAligned(k: int, e: nat)
    requires e > 0
    ensures Aligned(k * e, e) && k * e / e == k
  {
    var x := k * e;
    var q, r := x / e, x % e;
    assert x == q * e + r;
    assert (k - q) * e == r;
    SmallMultiple(k - q, e);
  }

  lemma SmallMultiple(k: int, e: nat)
    requires e > 0 && 0 <= k * e < e
    ensures k == 0
  {
    assert k >= 1 ==> k * e >= e;
    assert k <= -1 ==> k * e <= -1 * e;
  }

  lemma AlignedGap(x: int, y: int, e: nat)
    requires Aligned(x, e) && Aligned(y, e) && x < y
    ensures x + e <= y
  {
    AlignedSum(y, x, e);
    var k := (y - x) / e;
    assert y - x == k * e;
    assert k <= 0 ==> k * e <= 0;
    assert k >= 1 ==> k * e >= e;
  }

  lemma AlignedDistance(n: nat, from: nat, to: nat, e: nat)
    requires from < n && to < n && Aligned(n, e) && Aligned(from, e) && Aligned(to, e)
    ensures Aligned(Distance(n, from, to), e) && Distance(n, from, to) + e <= n
  {
    AlignedSum(to, from, e);
    AlignedSum(n, from, e);
    AlignedSum(n - from, to, e);
    AlignedGap(Distance(n, from, to), n, e);
  }

  lemma AlignedAhead(n: nat, from: nat, k: nat, e: nat)
    requires from < n && k <= n && Aligned(n, e) && Aligned(from, e) && Aligned(k, e)
    ensures Aligned(Ahead(n, from, k), e)
  {
    AlignedSum(from, k, e);
    AlignedSum(from + k, n, e);
  }

  /** The elements in a run of bytes. */
  function Elements(bytes: seq<Byte>, e: nat): seq<seq<Byte>>
    requires e > 0
  {
    if |bytes| < e then [] else [bytes[..e]] + Elements(bytes[e..], e)
  }

  lemma {:induction false} ElementsAppend(a: seq<Byte>, b: seq<Byte>, e: nat)
    requires Aligned(|a|, e)
    ensures Elements(a + b, e) == Elements(a, e) + Elements(b, e)
  {
    if a == [] {
      assert a + b == b;
    } else {
      AlignedGap(0, |a|, e);
      AlignedSum(|a|, e, e) by { MultipleIsAligned(1, e); }
      assert (a + b)[..e] == a[..e];
      assert (a + b)[e..] == a[e..] + b;
      ElementsAppend(a[e..], b, e);
    }
  }

  lemma CountOneLess(x: nat, e: nat)
    requires Aligned(x, e) && x >= e
    ensures Count(x, e) == Count(x - e, e) + 1
  {
    var k := Count(x, e);
    CountAligned(x, e);
    assert (k - 1) * e == x - e;
    MultipleIsAligned(k - 1, e);
  }

  lemma ElementCount(bytes: seq<Byte>, e: nat)
    requires Aligned(|bytes|, e)
    ensures |Elements(bytes, e)| == Count(|bytes|, e)
    decreases |bytes|
  {
    if bytes != [] {
      AlignedGap(0, |bytes|, e);
      MultipleIsAligned(1, e);
      AlignedSum(|bytes|, e, e);
      ElementCount(bytes[e..], e);
      CountOneLess(|bytes|, e);
    }
  }

  // ---- circular writes ----

  lemma ArcAt(buf: seq<Byte>, from: nat, to: nat, i: nat)
    requires from < |buf| && to < |buf| && i < Distance(|buf|, from, to)
    ensures Arc(buf, from, to)[i] == buf[Ahead(|buf|, from, i)]
  {
  }

  /** `after` is `before` with `src` written from `at` on, around the end if need be. */
  ghost predicate Written(before: seq<Byte>, after: seq<Byte>, at: nat, src: seq<Byte>) {
    && |after| == |before| && at < |before| && |src| <= |before|
    && (forall i :: 0 <= i < |src| ==> after[Ahead(|before|, at, i)] == src[i])
    && (forall j :: 0 <= j < |before| && Distance(|before|, at, j) >= |src| ==> after[j] == before[j])
  }

  /** Writing into free space appends to what a tail has waiting, and overwrites none of it. */
  lemma WriteAppends(before: seq<Byte>, after: seq<Byte>, t: nat, head: nat, src: seq<Byte>)
    requires Written(before, after, head, src)
    requires t < |before| && Distance(|before|, t, head) + |src| < |before|
    ensures Arc(after, t, Ahead(|before|, head, |src|)) == Arc(before, t, head) + src
  {
    var n, d := |before|, Distance(|before|, t, head);
    var head' := Ahead(n, head, |src|);
    assert Distance(n, t, head') == d + |src|;
    forall i | 0 <= i < d + |src| ensures Arc(after, t, head')[i] == (Arc(before, t, head) + src)[i] {
      ArcAt(after, t, head', i);
      if i < d {
        ArcAt(before, t, head, i);
        assert Distance(n, head, Ahead(n, t, i)) >= |src|;
      } else {
        assert Ahead(n, t, i) == Ahead(n, head, i - d);
      }
    }
  }

  lemma WriteKeepsBetween(n: nat, oldest: nat, t: nat, head: nat, k: nat)
    requires Between(n, oldest, t, head) && Distance(n, oldest, head) + k < n
    ensures Between(n, oldest, t, Ahead(n, head, k))
    ensures Distance(n, t, Ahead(n, head, k)) == Distance(n, t, head) + k
  {
  }

  lemma WrittenStraight(before: seq<Byte>, after: seq<Byte>, at: nat, src: seq<Byte>)
    requires at < |before| && at + |src| <= |before|
    requires after == before[..at] + src + before[at + |src|..]
    ensures Written(before, after, at, src)
  {
  }

  lemma WrittenAround(before: seq<Byte>, after: seq<Byte>, at: nat, src: seq<Byte>)
    requires at < |before| < at + |src| && |src| <= |before|
    requires var m := |before| - at; after == src[m..] + before[|src| - m..at] + src[..m]
    ensures Written(before, after, at, src)
  {
  }

  // ---- circular reads ----

  /** Moving a tail on by `k` bytes drops the first `k` bytes of what it has waiting. */
  lemma ArcDrop(buf: seq<Byte>, t: nat, head: nat, k: nat)
    requires t < |buf| && head < |buf| && k <= Distance(|buf|, t, head)
    ensures var t' := Ahead(|buf|, t, k);
            && Distance(|buf|, t', head) == Distance(|buf|, t, head) - k
            && Arc(buf, t', head) == Arc(buf, t, head)[k..]
            && Arc(buf, t, t') == Arc(buf, t, head)[..k]
  {
    var t' := Ahead(|buf|, t, k);
    assert Between(|buf|, t, t', head);
    ArcSplit(buf, t, t', head);
  }

  /** A tail that is not behind the new oldest tail stays on the arc. */
  lemma OldestMoves(n: nat, oldest: nat, oldest': nat, t: nat, head: nat)
    requires Between(n, oldest, oldest', head) && Between(n, oldest, t, head)
    requires Distance(n, t, head) <= Distance(n, oldest', head)
    ensures Between(n, oldest', t, head)
  {
  }
}
