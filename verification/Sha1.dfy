/** The streaming implementation: one 64-byte buffer and a circular schedule of 16 words, both overwritten in place. */
module Sha1 {
  import opened Common
  import opened Sha1Spec

  // ---- the boolean functions in the form the code uses ----

  function F0(b: Word, c: Word, d: Word): Word { (b & c) | (!b & d) }
  function F1(b: Word, c: Word, d: Word): Word { (b ^ c) ^ d }
  function F2(b: Word, c: Word, d: Word): Word { (b & c) | (b & d) | (c & d) }

  lemma ChooseAgrees(b: Word, c: Word, d: Word)
    ensures F0(b, c, d) == Choose(b, c, d)
  {
    assert (b & c) | (!b & d) == (b & c) ^ (!b & d);
  }

  lemma MajorityAgrees(b: Word, c: Word, d: Word)
    ensures F2(b, c, d) == Majority(b, c, d)
  {
    assert (b & c) | (b & d) | (c & d) == (b & c) ^ (b & d) ^ (c & d);
  }

  /** The code adds the schedule word before the constant, the standard after it. */
  lemma SumOrder(a: Word, f: Word, e: Word, w: Word, k: Word)
    ensures Sum5(a, f, e, w, k) == Sum5(a, f, e, k, w)
  {
  }

  // ---- the circular schedule ----

  /** The 16 words hold the last 16 words of the schedule that precede round `t`, or the first 16. */
  ghost predicate Window(w: seq<Word>, block: seq<Byte>, t: nat)
    requires |block| == 64
  {
    |w| == 16 && forall u :: 0 <= u && t - 16 <= u && (u < t || u < 16) ==> w[u % 16] == W(block, u)
  }

  method LoadWords(m: array<Byte>) returns (w: array<Word>)
    requires m.Length == 64
    ensures fresh(w) && Window(w[..], m[..], 16)
  {
    w := new Word[16];
    for i := 0 to 16
      invariant forall u :: 0 <= u < i ==> w[u] == W(m[..], u)
    {
      w[i] := WordAt(m[..], 4 * i);
    }
  }

  /** (s + ahead) & 0x0f */
  function Slot(s: nat, ahead: nat): (i: nat)
    ensures i < 16
  {
    (s + ahead) % 16
  }

  method ExpandWord(w: array<Word>, ghost block: seq<Byte>, t: nat)
    requires w.Length == 16 && |block| == 64 && t >= 16 && Window(w[..], block, t)
    modifies w
    ensures Window(w[..], block, t + 1)
  {
    hide Window, W, Mix, Slot;
    var s := t % 16;
    ghost var before := w[..];
    NextWord(before, block, t);
    w[s] := Mix(w[Slot(s, 13)], w[Slot(s, 8)], w[Slot(s, 2)], w[s]);
    assert w[..] == before[s := W(block, t)];
    Slide(before, block, t, w[..]);
  }

  lemma NextWord(w: seq<Word>, block: seq<Byte>, t: nat)
    requires |w| == 16 && |block| == 64 && t >= 16 && Window(w, block, t)
    ensures var s := t % 16; Mix(w[Slot(s, 13)], w[Slot(s, 8)], w[Slot(s, 2)], w[s]) == W(block, t)
  {
    WindowAt(w, block, t, 3);
    WindowAt(w, block, t, 8);
    WindowAt(w, block, t, 14);
    assert w[t % 16] == W(block, t - 16) by {
      SameSlot(t, 16);
      assert w[(t - 16) % 16] == W(block, t - 16);
    }
    hide Window, Mix, Slot;
  }

  /** The slot arithmetic of the code: positions are computed from the slot, not from the round. */
  lemma SameSlot(t: nat, back: nat)
    requires back <= 16 <= t
    ensures (t - back) % 16 == Slot(t % 16, 16 - back)
    ensures back == 16 ==> (t - back) % 16 == t % 16
  {
    var q, s := t / 16, t % 16;
    if s >= back {
      Remainder(t - back, q, s - back);
      Remainder(s + 16 - back, 1, s - back);
    } else {
      Remainder(t - back, q - 1, s + 16 - back);
    }
  }

  lemma Remainder(n: nat, q: nat, r: nat)
    requires n == 16 * q + r && r < 16
    ensures n % 16 == r
  {
  }

  lemma WindowAt(w: seq<Word>, block: seq<Byte>, t: nat, back: nat)
    requires |block| == 64 && 0 < back <= 16 <= t && Window(w, block, t)
    ensures w[Slot(t % 16, 16 - back)] == W(block, t - back)
  {
    SameSlot(t, back);
    assert w[(t - back) % 16] == W(block, t - back);
  }

  lemma Slide(w: seq<Word>, block: seq<Byte>, t: nat, w': seq<Word>)
    requires |block| == 64 && t >= 16 && Window(w, block, t) && w' == w[t % 16 := W(block, t)]
    ensures Window(w', block, t + 1)
  {
    forall u | t - 15 <= u < t + 1 ensures w'[u % 16] == W(block, u) {
      if u < t {
        OtherSlot(t, t - u);
        assert w[u % 16] == W(block, u);
      }
    }
  }

  lemma OtherSlot(t: nat, back: nat)
    requires 0 < back < 16 <= t
    ensures (t - back) % 16 != t % 16
  {
    SameSlot(t, back);
  }

  // ---- one block ----

  const ROUND_CONSTANTS: seq<Word> := [0x5a827999, 0x6ed9eba1, 0x8f1bbcdc, 0xca62c1d6]

  lemma ConstantsAgree(t: nat)
    requires t < 80
    ensures ROUND_CONSTANTS[t / 20] == K(t)
  {
  }

  /** The shuffle at the end of every round body. */
  function Shuffle(tmp: Word, h: Hash): Hash {
    Hash(tmp, h.a, Rotl(30, h.b), h.c, h.d)
  }

  lemma RoundAgrees(t: nat, h: Hash, f: Word, w: Word)
    requires t < 80 && f == F(t, h.b, h.c, h.d)
    ensures Shuffle(Sum5(Rotl(5, h.a), f, h.e, w, ROUND_CONSTANTS[t / 20]), h) == Round(t, h, w)
  {
    hide Rotl, F, K, ROUND_CONSTANTS, Sum5;
    ConstantsAgree(t);
    SumOrder(Rotl(5, h.a), f, h.e, w, K(t));
  }

  lemma NextRound(h: Hash, block: seq<Byte>, t: nat)
    requires |block| == 64
    ensures Rounds(h, block, t + 1) == Round(t, Rounds(h, block, t), W(block, t))
  {
  }

  /** The 80 rounds: four loops of 20, the schedule growing in place from round 16 on. */
  method EightyRounds(m: array<Byte>, start: Hash) returns (h: Hash)
    requires m.Length == 64
    ensures h == Rounds(start, m[..], 80)
  {
    hide Rounds, W, Rotl, F0, F1, F2, F, K, Round, Shuffle, ROUND_CONSTANTS;
    ghost var block := m[..];
    var w := LoadWords(m);
    h := start;
    RoundsStart(start, block);
    for t := 0 to 20
      invariant m[..] == block && h == Rounds(start, block, t) && Window(w[..], block, if t < 16 then 16 else t)
    {
      if t >= 16 {
        ExpandWord(w, block, t);
      }
      h := RoundBody(block, start, t, h, F0(h.b, h.c, h.d), w);
    }
    for t := 20 to 40
      invariant m[..] == block && h == Rounds(start, block, t) && Window(w[..], block, t)
    {
      ExpandWord(w, block, t);
      h := RoundBody(block, start, t, h, F1(h.b, h.c, h.d), w);
    }
    for t := 40 to 60
      invariant m[..] == block && h == Rounds(start, block, t) && Window(w[..], block, t)
    {
      ExpandWord(w, block, t);
      h := RoundBody(block, start, t, h, F2(h.b, h.c, h.d), w);
    }
    for t := 60 to 80
      invariant m[..] == block && h == Rounds(start, block, t) && Window(w[..], block, t)
    {
      ExpandWord(w, block, t);
      h := RoundBody(block, start, t, h, F1(h.b, h.c, h.d), w);
    }
  }

  lemma RoundsStart(h: Hash, block: seq<Byte>)
    requires |block| == 64
    ensures Rounds(h, block, 0) == h
  {
  }

  /** tmp = S(5, a) + f + e + W(s) + K(t), then the working variables move down one place. */
  method RoundBody(ghost block: seq<Byte>, ghost start: Hash, t: nat, h: Hash, f: Word, w: array<Word>)
    returns (next: Hash)
    requires |block| == 64 && w.Length == 16 && t < 80
    requires h == Rounds(start, block, t) && Window(w[..], block, if t < 15 then 16 else t + 1)
    requires f == if t < 20 then F0(h.b, h.c, h.d) else if 40 <= t < 60 then F2(h.b, h.c, h.d) else F1(h.b, h.c, h.d)
    ensures next == Rounds(start, block, t + 1)
  {
    ChooseAgrees(h.b, h.c, h.d);
    MajorityAgrees(h.b, h.c, h.d);
    assert f == F(t, h.b, h.c, h.d);
    hide Rounds, W, Rotl, F, K, Round, F0, F1, F2, Choose, Majority, Parity, Sum5, ROUND_CONSTANTS;
    var s := t % 16;
    assert w[..][t % 16] == W(block, t);
    var tmp := Sum5(Rotl(5, h.a), f, h.e, w[s], ROUND_CONSTANTS[t / 20]);
    next := Hash(tmp, h.a, Rotl(30, h.b), h.c, h.d);
    RoundAgrees(t, h, f, W(block, t));
    NextRound(start, block, t);
  }
}
