/** What the functions of the SHA-1 specification mean, in the constants and operators of FIPS 180-4. */
module Sha1Laws {
  import opened Common
  import opened Sha1Spec

  /** `k` holds the first 32 bits of the square root of a number below 16: two in front of the point, 30 behind it. */
  predicate RootOf(k: nat, n: nat) {
    k * k <= n * 0x1000_0000_0000_0000 < (k + 1) * (k + 1)
  }

  /** Section 4.2.1: the constants are the square roots of 2, 3, 5 and 10, twenty rounds each. */
  lemma RoundConstants(t: nat)
    requires t < 80
    ensures RootOf(K(t) as nat, if t < 20 then 2 else if t < 40 then 3 else if t < 60 then 5 else 10)
  {
  }

  /** Section 5.3.1: the first four initial words count the nibbles up and down again, the fifth interleaves them. */
  lemma InitialWords()
    ensures HashBytes(INITIAL) ==
            [0x67, 0x45, 0x23, 0x01, 0xef, 0xcd, 0xab, 0x89, 0x98, 0xba, 0xdc, 0xfe, 0x10, 0x32, 0x54, 0x76,
             0xc3, 0xd2, 0xe1, 0xf0]
  {
  }

  /** Section 3.2: rotation takes the lower part up, and puts the bits that fall out below it. */
  lemma RotationByOne(x: Word)
    ensures Rotl(1, x) / 2 == x % 0x8000_0000 && Rotl(1, x) % 2 == x / 0x8000_0000
  {
    assert ((x << 1) | (x >> 31)) / 2 == x % 0x8000_0000;
    assert ((x << 1) | (x >> 31)) % 2 == x / 0x8000_0000;
  }

  lemma RotationByFive(x: Word)
    ensures Rotl(5, x) / 32 == x % 0x800_0000 && Rotl(5, x) % 32 == x / 0x800_0000
  {
    assert ((x << 5) | (x >> 27)) / 32 == x % 0x800_0000;
    assert ((x << 5) | (x >> 27)) % 32 == x / 0x800_0000;
  }

  lemma RotationByThirty(x: Word)
    ensures Rotl(30, x) / 0x4000_0000 == x % 4 && Rotl(30, x) % 0x4000_0000 == x / 4
  {
    assert ((x << 30) | (x >> 2)) / 0x4000_0000 == x % 4;
    assert ((x << 30) | (x >> 2)) % 0x4000_0000 == x / 4;
  }

  /** Sums are taken modulo 2^32. */
  lemma Sums(v: Word, w: Word, x: Word, y: Word, z: Word)
    ensures Add(v, w) == v + w && Sum5(v, w, x, y, z) == v + w + x + y + z
  {
  }

  /** Section 4.1.1: every bit of the first function is chosen by the same bit of `x`. */
  lemma ChooseBits(x: Word, y: Word, z: Word)
    ensures Choose(x, y, z) & x == y & x && Choose(x, y, z) & !x == z & !x
  {
  }

  /** The third function: where `x` has a bit, one more of the words must have it. */
  lemma MajorityWithFirst(x: Word, y: Word, z: Word)
    ensures Majority(x, y, z) & x == x & (y | z)
  {
    assert ((x & y) ^ (x & z) ^ (y & z)) & x == x & (y | z);
  }

  /** Where `x` does not have it, both other words must. */
  lemma MajorityWithoutFirst(x: Word, y: Word, z: Word)
    ensures Majority(x, y, z) & !x == !x & y & z
  {
    assert ((x & y) ^ (x & z) ^ (y & z)) & !x == !x & y & z;
  }

  /** The second and fourth functions differ from each word by the difference of the other two. */
  lemma ParityBits(x: Word, y: Word, z: Word)
    ensures Parity(x, y, z) ^ x == y ^ z
  {
  }

  /** Section 6.1.2, step 3: the words move up by one; the first is new, and the second is rotated on the way. */
  lemma RoundMoves(t: nat, h: Hash, w: Word)
    requires t < 80
    ensures var r := Round(t, h, w);
            && r.a == Sum5(Rotl(5, h.a), F(t, h.b, h.c, h.d), h.e, K(t), w)
            && r.b == h.a && r.c == Rotl(30, h.b) && r.d == h.c && r.e == h.d
    ensures F(t, h.b, h.c, h.d) == if t < 20 then Choose(h.b, h.c, h.d) else
                                   if 40 <= t < 60 then Majority(h.b, h.c, h.d) else Parity(h.b, h.c, h.d)
  {
    hide K, Rotl, Sum5, Choose, Majority, Parity;
  }

  /** Step 1: the first 16 words of the schedule are the bytes of the block. */
  lemma FirstWords(block: seq<Byte>, t: nat)
    requires |block| == 64 && t < 16
    ensures WordBytes(W(block, t)) == block[4 * t..4 * t + 4]
  {
    hide WordAt, WordBytes;
    BytesOfWord(block, 4 * t);
  }

  lemma BytesOfWord(s: seq<Byte>, i: nat)
    requires i + 4 <= |s|
    ensures WordBytes(WordAt(s, i)) == s[i..i + 4]
  {
    hide WordBytes;
    FourOfWord(s[i], s[i + 1], s[i + 2], s[i + 3]);
  }

  lemma FourOfWord(a: Byte, b: Byte, c: Byte, d: Byte)
    ensures WordBytes((a as Word << 24) | (b as Word << 16) | (c as Word << 8) | d as Word) == [a, b, c, d]
  {
  }

  /** The others mix four earlier words. */
  lemma FurtherWords(block: seq<Byte>, t: nat)
    requires |block| == 64 && 16 <= t < 80
    ensures W(block, t) == Rotl(1, W(block, t - 3) ^ W(block, t - 8) ^ W(block, t - 14) ^ W(block, t - 16))
  {
    hide Rotl;
  }

  /** Steps 2 and 4: eighty rounds from the old hash value, and their result is added to it. */
  lemma CompressAdds(h: Hash, block: seq<Byte>)
    requires |block| == 64
    ensures var n, r := Compress(h, block), Rounds(h, block, 80);
            n == Hash(Add(h.a, r.a), Add(h.b, r.b), Add(h.c, r.c), Add(h.d, r.d), Add(h.e, r.e))
  {
    hide Rounds, Add;
  }

  lemma RoundByRound(h: Hash, block: seq<Byte>, t: nat)
    requires |block| == 64
    ensures Rounds(h, block, 0) == h && Rounds(h, block, t + 1) == Round(t, Rounds(h, block, t), W(block, t))
  {
    hide Round, W;
  }

  /** Section 6.1.2: the blocks are taken one after the other, from the initial words on. */
  lemma ChainGrows(message: seq<Byte>, block: seq<Byte>)
    requires |message| % 64 == 0 && |block| == 64
    ensures Chain([]) == INITIAL
    ensures Chain(message + block) == Compress(Chain(message), block)
  {
    hide Compress;
    var all := message + block;
    assert all[..|all| - 64] == message && all[|all| - 64..] == block;
  }

  /** A big-endian number of any length. */
  function NumberOf(s: seq<Byte>): nat {
    if s == [] then 0 else 256 * NumberOf(s[..|s| - 1]) + s[|s| - 1] as nat
  }

  /** Section 5.1.1: a one bit, the fewest zeros that fill the last block, and the length in bits. */
  lemma PadShape(message: seq<Byte>)
    requires 8 * |message| < 0x1_0000_0000_0000_0000
    ensures var p, n := Pad(message), |message|;
            && |p| % 64 == 0 && n + 9 <= |p| < n + 9 + 64
            && p[..n] == message && p[n] == 0x80 && (forall i :: n < i < |p| - 8 ==> p[i] == 0)
            && NumberOf(p[|p| - 8..]) == 8 * n
  {
    hide NumberOf, BigEndian;
    PaddedLength(message);
    NumberOfBigEndian(8 * |message|, 8);
    PowersOf256();
    assert Pad(message)[|Pad(message)| - 8..] == BigEndian(8 * |message|, 8);
  }

  function Pow256(n: nat): nat {
    if n == 0 then 1 else 256 * Pow256(n - 1)
  }

  lemma PowersOf256()
    ensures Pow256(8) == 0x1_0000_0000_0000_0000
  {
  }

  lemma {:induction false} NumberOfBigEndian(x: nat, n: nat)
    requires x < Pow256(n)
    ensures NumberOf(BigEndian(x, n)) == x
  {
    if n > 0 {
      NumberOfBigEndian(x / 256, n - 1);
      ByteIs(x % 256);
      var s := BigEndian(x, n);
      assert s[..|s| - 1] == BigEndian(x / 256, n - 1) && s[|s| - 1] == (x % 256) as Byte;
    }
  }

  /** The digest is the hash value of the padded message, each word with its most significant byte first. */
  lemma DigestWords(message: seq<Byte>)
    requires 8 * |message| < 0x1_0000_0000_0000_0000
    ensures |Digest(message)| == 20 && |Pad(message)| % 64 == 0
    ensures var d, h := Digest(message), Chain(Pad(message));
            && WordAt(d, 0) == h.a && WordAt(d, 4) == h.b && WordAt(d, 8) == h.c && WordAt(d, 12) == h.d
            && WordAt(d, 16) == h.e
  {
    hide Chain, Pad, WordBytes, WordAt;
    PaddedLength(message);
    var h, d := Chain(Pad(message)), Digest(message);
    WordOfBytes(d, 0, h.a);
    WordOfBytes(d, 4, h.b);
    WordOfBytes(d, 8, h.c);
    WordOfBytes(d, 12, h.d);
    WordOfBytes(d, 16, h.e);
  }

  lemma WordOfBytes(s: seq<Byte>, i: nat, w: Word)
    requires i + 4 <= |s| && s[i..i + 4] == WordBytes(w)
    ensures WordAt(s, i) == w
  {
    var b := s[i..i + 4];
    assert s[i] == b[0] && s[i + 1] == b[1] && s[i + 2] == b[2] && s[i + 3] == b[3];
    OneWord(w);
  }

  lemma OneWord(w: Word)
    ensures WordAt(WordBytes(w), 0) == w
  {
  }
}
