/** SHA-1 as FIPS 180-4 defines it: padding (5.1.1), parsing (5.2.1) and the 80-word computation (6.1.2). */
module Sha1Spec {
  import opened Common

  type Word = bv32

  datatype Hash = Hash(a: Word, b: Word, c: Word, d: Word, e: Word)

  const INITIAL: Hash := Hash(0x67452301, 0xefcdab89, 0x98badcfe, 0x10325476, 0xc3d2e1f0)

  const ROUNDS: nat := 80

  function Rotl(n: bv6, x: Word): Word
    requires 0 < n < 32
  {
    (x << n) | (x >> (32 - n))
  }

  // Addition is modulo 2^32.
  function Add(x: Word, y: Word): Word { x + y }

  function Sum5(v: Word, w: Word, x: Word, y: Word, z: Word): Word { v + w + x + y + z }

  function Mix(a: Word, b: Word, c: Word, d: Word): Word { Rotl(1, a ^ b ^ c ^ d) }

  function Choose(x: Word, y: Word, z: Word): Word { (x & y) ^ (!x & z) }
  function Parity(x: Word, y: Word, z: Word): Word { x ^ y ^ z }
  function Majority(x: Word, y: Word, z: Word): Word { (x & y) ^ (x & z) ^ (y & z) }

  function F(t: nat, x: Word, y: Word, z: Word): Word {
    if t < 20 then Choose(x, y, z)
    else if t < 40 then Parity(x, y, z)
    else if t < 60 then Majority(x, y, z)
    else Parity(x, y, z)
  }

  function K(t: nat): Word {
    if t < 20 then 0x5a827999 else if t < 40 then 0x6ed9eba1 else if t < 60 then 0x8f1bbcdc else 0xca62c1d6
  }

  /** A big-endian 32-bit word. */
  function WordAt(bytes: seq<Byte>, i: nat): Word
    requires i + 4 <= |bytes|
  {
    (bytes[i] as Word << 24) | (bytes[i + 1] as Word << 16) | (bytes[i + 2] as Word << 8) | bytes[i + 3] as Word
  }

  /** The message schedule W_t. */
  function W(block: seq<Byte>, t: nat): Word
    requires |block| == 64
    decreases t
  {
    if t < 16 then WordAt(block, 4 * t)
    else Mix(W(block, t - 3), W(block, t - 8), W(block, t - 14), W(block, t - 16))
  }

  function Round(t: nat, h: Hash, w: Word): Hash {
    Hash(Sum5(Rotl(5, h.a), F(t, h.b, h.c, h.d), h.e, K(t), w), h.a, Rotl(30, h.b), h.c, h.d)
  }

  /** The working variables after the first `n` rounds. */
  function Rounds(h: Hash, block: seq<Byte>, n: nat): Hash
    requires |block| == 64
    decreases n
  {
    if n == 0 then h else Round(n - 1, Rounds(h, block, n - 1), W(block, n - 1))
  }

  function AddHash(x: Hash, y: Hash): Hash {
    Hash(Add(x.a, y.a), Add(x.b, y.b), Add(x.c, y.c), Add(x.d, y.d), Add(x.e, y.e))
  }

  function Compress(h: Hash, block: seq<Byte>): Hash
    requires |block| == 64
  {
    AddHash(h, Rounds(h, block, ROUNDS))
  }

  /** The hash value after all blocks of a message of whole blocks. */
  function Chain(message: seq<Byte>): Hash
    requires |message| % 64 == 0
    decreases |message|
  {
    if message == [] then INITIAL
    else Compress(Chain(message[..|message| - 64]), message[|message| - 64..])
  }

  function ZeroBytes(n: nat): (s: seq<Byte>)
    ensures |s| == n
  {
    seq(n, _ => 0)
  }

  /** The low `n` bytes of a number, most significant first. */
  function BigEndian(x: nat, n: nat): (s: seq<Byte>)
    ensures |s| == n
    decreases n
  {
    if n == 0 then [] else BigEndian(x / 256, n - 1) + [(x % 256) as Byte]
  }

  /** The number of zero bytes between the marker byte and the length. */
  function PaddingZeros(length: nat): nat {
    (119 - length % 64) % 64
  }

  function Pad(message: seq<Byte>): seq<Byte> {
    message + [0x80] + ZeroBytes(PaddingZeros(|message|)) + BigEndian(8 * |message|, 8)
  }

  lemma PaddingFillsBlock(length: nat)
    ensures (length + 1 + PaddingZeros(length) + 8) % 64 == 0
  {
  }

  lemma PaddedLength(message: seq<Byte>)
    ensures |Pad(message)| % 64 == 0
  {
    PaddingFillsBlock(|message|);
    hide PaddingZeros;
    assert |Pad(message)| == |message| + 1 + PaddingZeros(|message|) + 8;
  }

  function WordBytes(w: Word): (s: seq<Byte>)
    ensures |s| == 4
  {
    [(w >> 24) as Byte, ((w >> 16) & 0xff) as Byte, ((w >> 8) & 0xff) as Byte, (w & 0xff) as Byte]
  }

  function HashBytes(h: Hash): (s: seq<Byte>)
    ensures |s| == 20
  {
    WordBytes(h.a) + WordBytes(h.b) + WordBytes(h.c) + WordBytes(h.d) + WordBytes(h.e)
  }

  /** The message digest; the standard defines it for messages shorter than 2^64 bits. */
  function Digest(message: seq<Byte>): seq<Byte>
    requires 8 * |message| < 0x1_0000_0000_0000_0000
  {
    PaddedLength(message);
    HashBytes(Chain(Pad(message)))
  }
}
