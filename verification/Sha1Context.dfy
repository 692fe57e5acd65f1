/**
 * The hash context: bytes are taken one at a time in the specification, and in runs up to the end of the block in the
 * code.
 */
module Sha1Context {
  import opened Common
  import opened Sha1Spec
  import opened Sha1

  datatype State = State(h: Hash, block: seq<Byte>, count: nat, bits: nat)

  predicate WellFormed(s: State) {
    |s.block| == 64 && s.count < 64
  }

  const START: State := State(INITIAL, ZeroBytes(64), 0, 0)


  /** One byte into the block, and the compression when the block is full. */
  function Padded(s: State, x: Byte): (r: State)
    requires WellFormed(s)
    ensures WellFormed(r)
  {
    var block := s.block[s.count := x];
    if s.count == 63 then State(Compress(s.h, block), ZeroBytes(64), 0, s.bits)
    else State(s.h, block, s.count + 1, s.bits)
  }

  function PutByte(s: State, x: Byte): (r: State)
    requires WellFormed(s)
    ensures WellFormed(r)
  {
    Padded(s.(bits := Wrap64(s.bits + 8)), x)
  }

  /** A run of message bytes, one after the other. */
  function Absorb(s: State, bytes: seq<Byte>): (r: State)
    requires WellFormed(s)
    ensures WellFormed(r)
  {
    if bytes == [] then s else PutByte(Absorb(s, bytes[..|bytes| - 1]), bytes[|bytes| - 1])
  }

  /** Chunking does not matter: absorbing in two parts is absorbing the concatenation. */
  lemma {:induction false} AbsorbParts(s: State, a: seq<Byte>, b: seq<Byte>)
    requires WellFormed(s)
    ensures Absorb(Absorb(s, a), b) == Absorb(s, a + b)
  {
    if b == [] {
      assert a + b == a;
    } else {
      AbsorbParts(s, a, b[..|b| - 1]);
      assert (a + b)[..|a + b| - 1] == a + b[..|b| - 1];
    }
  }

  function AbsorbAll(s: State, chunks: seq<seq<Byte>>): (r: State)
    requires WellFormed(s)
    ensures WellFormed(r)
    decreases |chunks|
  {
    if chunks == [] then s else AbsorbAll(Absorb(s, chunks[0]), chunks[1..])
  }

  /** Any division of a message into chunks gives the same state. */
  lemma {:induction false} AnyChunks(s: State, chunks: seq<seq<Byte>>)
    requires WellFormed(s)
    ensures AbsorbAll(s, chunks) == Absorb(s, Concat(chunks))
    decreases |chunks|
  {
    if chunks != [] {
      AbsorbParts(s, chunks[0], Concat(chunks[1..]));
      AnyChunks(Absorb(s, chunks[0]), chunks[1..]);
    }
  }

  // ---- a run of bytes that stays within the block ----

  /** A run of bytes, message or padding, that does not count towards the length. */
  function Feed(s: State, bytes: seq<Byte>): (r: State)
    requires WellFormed(s)
    ensures WellFormed(r) && r.bits == s.bits
  {
    if bytes == [] then s else Padded(Feed(s, bytes[..|bytes| - 1]), bytes[|bytes| - 1])
  }

  lemma {:induction false} FeedParts(s: State, a: seq<Byte>, b: seq<Byte>)
    requires WellFormed(s)
    ensures Feed(Feed(s, a), b) == Feed(s, a + b)
  {
    if b == [] {
      assert a + b == a;
    } else {
      FeedParts(s, a, b[..|b| - 1]);
      assert (a + b)[..|a + b| - 1] == a + b[..|b| - 1];
    }
  }

  lemma WrapSteps(bits: nat, n: nat)
    ensures Wrap64(Wrap64(bits + 8 * n) + 8) == Wrap64(bits + 8 * (n + 1))
  {
  }

  lemma PutByteIsPadded(s: State, bits: nat, n: nat, x: Byte)
    requires WellFormed(s)
    ensures PutByte(s.(bits := Wrap64(bits + 8 * n)), x) == Padded(s, x).(bits := Wrap64(bits + 8 * (n + 1)))
  {
    WrapSteps(bits, n);
    BitsDoNotMatter(s, Wrap64(bits + 8 * (n + 1)), x);
    hide Wrap64, Padded;
  }

  lemma BitsDoNotMatter(s: State, bits: nat, x: Byte)
    requires WellFormed(s)
    ensures Padded(s.(bits := bits), x) == Padded(s, x).(bits := bits)
  {
  }

  /** A message run is a run that also counts its bits. */
  lemma {:induction false} AbsorbIsFeed(s: State, bytes: seq<Byte>)
    requires WellFormed(s) && Wrap64(s.bits) == s.bits
    ensures Absorb(s, bytes) == Feed(s, bytes).(bits := Wrap64(s.bits + 8 * |bytes|))
  {
    hide Padded, Wrap64, PutByte;
    if bytes != [] {
      var front, last := bytes[..|bytes| - 1], bytes[|bytes| - 1];
      AbsorbIsFeed(s, front);
      PutByteIsPadded(Feed(s, front), s.bits, |front|, last);
    }
  }

  function Overlay(block: seq<Byte>, at: nat, bytes: seq<Byte>): (r: seq<Byte>)
    requires at + |bytes| <= |block|
    ensures |r| == |block|
  {
    block[..at] + bytes + block[at + |bytes|..]
  }

  /** What a memcpy or bzero, the position update and the compression do together. */
  function Run(s: State, bytes: seq<Byte>): (r: State)
    requires WellFormed(s) && s.count + |bytes| <= 64
    ensures WellFormed(r) && r.bits == s.bits
  {
    var block := Overlay(s.block, s.count, bytes);
    if s.count + |bytes| == 64 then State(Compress(s.h, block), ZeroBytes(64), 0, s.bits)
    else State(s.h, block, s.count + |bytes|, s.bits)
  }

  lemma {:induction false} RunIsFeed(s: State, bytes: seq<Byte>)
    requires WellFormed(s) && s.count + |bytes| <= 64
    ensures Run(s, bytes) == Feed(s, bytes)
  {
    if bytes == [] {
      assert Overlay(s.block, s.count, []) == s.block;
    } else {
      var front, last := bytes[..|bytes| - 1], bytes[|bytes| - 1];
      RunIsFeed(s, front);
      RunOneMore(s, front, last);
      assert front + [last] == bytes;
    }
  }

  lemma RunOneMore(s: State, front: seq<Byte>, last: Byte)
    requires WellFormed(s) && s.count + |front| < 64
    ensures Padded(Run(s, front), last) == Run(s, front + [last])
  {
    hide Compress, Overlay;
    OverlayOneMore(s.block, s.count, front, last);
  }

  lemma OverlayOneMore(block: seq<Byte>, at: nat, front: seq<Byte>, last: Byte)
    requires at + |front| < |block|
    ensures Overlay(block, at, front)[at + |front| := last] == Overlay(block, at, front + [last])
  {
  }

  // ---- the context object ----

  class Context {
    const h: array<Word>
    const m: array<Byte>
    var count: nat
    var c: nat

    ghost predicate Valid()
      reads this
    {
      h.Length == 5 && m.Length == 64 && count < 64 && c < 0x1_0000_0000_0000_0000
    }

    ghost function Snapshot(): (s: State)
      requires Valid()
      reads this, h, m
      ensures WellFormed(s)
    {
      State(Hash(h[0], h[1], h[2], h[3], h[4]), m[..], count, c)
    }

    constructor ()
      ensures Valid() && Snapshot() == START && fresh(h) && fresh(m)
    {
      h := new Word[5];
      m := new Byte[64](_ => 0);
      count, c := 0, 0;
      new;
      h[0], h[1], h[2], h[3], h[4] := 0x67452301, 0xefcdab89, 0x98badcfe, 0x10325476, 0xc3d2e1f0;
    }

    /** Compresses the full block and clears it. */
    method Step()
      requires Valid()
      modifies h, m
      ensures Valid() && Snapshot().h == Compress(old(Snapshot().h), old(m[..])) && m[..] == ZeroBytes(64)
    {
      hide Compress, Add, Rounds, AddHash;
      ghost var start := Snapshot().h;
      var r := EightyRounds(m, Hash(h[0], h[1], h[2], h[3], h[4]));
      ghost var block := m[..];
      h[0] := Add(h[0], r.a);
      h[1] := Add(h[1], r.b);
      h[2] := Add(h[2], r.c);
      h[3] := Add(h[3], r.d);
      h[4] := Add(h[4], r.e);
      CompressIs(start, block, r);
      forall i | 0 <= i < 64 {
        m[i] := 0;
      }
    }

    method PutPad(x: Byte)
      requires Valid()
      modifies this`count, h, m
      ensures Valid() && Snapshot() == Padded(old(Snapshot()), x)
    {
      hide Compress;
      m[count % 64] := x;
      count := (count + 1) % 64;
      if count % 64 == 0 {
        Step();
      }
    }

    /** memcpy into the block at the current position. */
    method CopyIn(input: seq<Byte>, off: nat, size: nat)
      requires Valid() && off + size <= |input| && count + size <= 64
      modifies m
      ensures m[..] == Overlay(old(m[..]), count, input[off..off + size])
    {
      for i := 0 to size
        invariant forall j :: 0 <= j < 64 ==>
                    m[j] == if count <= j < count + i then input[off + j - count] else old(m[j])
      {
        m[count + i] := input[off + i];
      }
    }

    /** One turn of the update loop: as many bytes as the block has room for. */
    method CopyRun(input: seq<Byte>, off: nat) returns (copysiz: nat)
      requires Valid() && off < |input|
      modifies this, h, m
      ensures 0 < copysiz && off + copysiz <= |input|
      ensures Valid() && Snapshot() == Absorb(old(Snapshot()), input[off..off + copysiz])
    {
      hide Compress, Absorb, Feed, Overlay, ZeroBytes;
      var gaplen := 64 - count % 64;
      copysiz := if gaplen < |input| - off then gaplen else |input| - off;
      ghost var before := Snapshot();
      ghost var run := input[off..off + copysiz];
      CopyIn(input, off, copysiz);
      count := (count + copysiz) % 64;
      c := Wrap64(c + copysiz * 8);
      if count % 64 == 0 {
        Step();
      }
      RunIsFeed(before, run);
      AbsorbIsFeed(before, run);
    }

    /** The update loop. */
    method Loop(input: seq<Byte>)
      requires Valid()
      modifies this, h, m
      ensures Valid() && Snapshot() == Absorb(old(Snapshot()), input)
    {
      hide Absorb;
      ghost var start := Snapshot();
      var off := 0;
      assert input[..0] == [];
      AbsorbNothing(start);
      while off < |input|
        invariant off <= |input| && Valid()
        invariant Snapshot() == Absorb(start, input[..off])
      {
        var copysiz := CopyRun(input, off);
        AbsorbParts(start, input[..off], input[off..off + copysiz]);
        assert input[..off] + input[off..off + copysiz] == input[..off + copysiz];
        off := off + copysiz;
      }
      assert input[..off] == input;
    }

    /** bzero of the block from the current position, with the position moved on. */
    method ZeroFill(size: nat)
      requires Valid() && count + size <= 64
      modifies this`count, h, m
      ensures Valid() && Snapshot() == Feed(old(Snapshot()), ZeroBytes(size))
      ensures count == (old(count) + size) % 64 && c == old(c)
    {
      hide Compress, Feed;
      ghost var before := Snapshot();
      forall i | count <= i < count + size {
        m[i] := 0;
      }
      assert m[..] == Overlay(before.block, count, ZeroBytes(size));
      RunIsFeed(before, ZeroBytes(size));
      if count + size == 64 {
        count := (count + size) % 64;
        Step();
      } else {
        count := (count + size) % 64;
      }
    }

    /** The eight bytes of the bit count, most significant first. */
    method PutLength()
      requires Valid()
      modifies this`count, h, m
      ensures Valid() && Snapshot() == Feed(old(Snapshot()), BigEndian(c, 8))
    {
      hide Padded, BigEndian, ByteAt, Feed;
      ghost var start := Snapshot();
      ghost var bytes := BigEndian(c, 8);
      FeedNothing(start);
      var i := 8;
      while i > 0
        invariant 0 <= i <= 8 && Valid() && c == start.bits
        invariant Snapshot() == Feed(start, bytes[..8 - i])
      {
        i := i - 1;
        BigEndianAt(c, 8, i);
        FeedOne(Snapshot(), ByteAt(c, i));
        FeedParts(start, bytes[..7 - i], [bytes[7 - i]]);
        assert bytes[..7 - i] + [bytes[7 - i]] == bytes[..8 - i];
        PutPad(ByteAt(c, i));
      }
      assert bytes[..8] == bytes;
    }

    /** The zero bytes after the marker: up to the length field of this block, or of the next one if it does not fit. */
    method PadZeros()
      requires Valid()
      modifies this`count, h, m
      ensures Valid() && c == old(c) && Snapshot() == Feed(old(Snapshot()), ZeroBytes((120 - old(count)) % 64))
    {
      hide Feed, ZeroBytes;
      ghost var marked := Snapshot();
      var padlen := 64 - count % 64;
      if padlen < 8 {
        ZeroFill(padlen);
        padlen := 64 - count % 64;
        ZeroFill(padlen - 8);
        TwoFills(marked, 64 - marked.count, 56);
      } else {
        ZeroFill(padlen - 8);
      }
    }

    method Pad()
      requires Valid()
      modifies this`count, h, m
      ensures Valid()
      ensures Snapshot()
           == Feed(old(Snapshot()), [0x80] + ZeroBytes(PaddingZeros(old(count))) + BigEndian(old(c), 8))
    {
      hide Padded, BigEndian, Feed, ZeroBytes;
      ghost var start := Snapshot();
      FeedOne(start, 0x80);
      PaddedCount(start, 0x80);
      PutPad(0x80);
      assert (120 - count) % 64 == PaddingZeros(start.count);
      PadZeros();
      PutLength();
      ThreeParts(start, [0x80], ZeroBytes(PaddingZeros(start.count)), BigEndian(start.bits, 8));
    }

    /** Pads the message and writes the hash words, most significant byte first. */
    method Result(digest: array<Byte>)
      requires Valid() && digest.Length == 20 && digest != m
      modifies this`count, h, m, digest
      ensures digest[..]
           == HashBytes(Feed(old(Snapshot()), [0x80] + ZeroBytes(PaddingZeros(old(count))) + BigEndian(old(c), 8)).h)
    {
      hide Feed, BigEndian, ZeroBytes, WordBytes;
      Pad();
      ghost var hash := Snapshot().h;
      PutWord(digest, 0, h[0]);
      PutWord(digest, 4, h[1]);
      PutWord(digest, 8, h[2]);
      PutWord(digest, 12, h[3]);
      PutWord(digest, 16, h[4]);
      assert digest[..20] == HashBytes(hash);
      assert digest[..20] == digest[..];
    }
  }

  method PutWord(digest: array<Byte>, at: nat, w: Word)
    requires at + 4 <= digest.Length
    modifies digest
    ensures digest[..at + 4] == if at == 0 then WordBytes(w) else old(digest[..at]) + WordBytes(w)
  {
    var bytes := WordBytes(w);
    hide WordBytes;
    digest[at], digest[at + 1], digest[at + 2], digest[at + 3] := bytes[0], bytes[1], bytes[2], bytes[3];
  }

  lemma FeedOne(s: State, x: Byte)
    requires WellFormed(s)
    ensures Feed(s, [x]) == Padded(s, x)
  {
    hide Padded;
    assert [x][..0] == [];
    FeedNothing(s);
  }

  lemma PaddedCount(s: State, x: Byte)
    requires WellFormed(s)
    ensures Padded(s, x).count == (s.count + 1) % 64
  {
  }

  lemma FeedNothing(s: State)
    requires WellFormed(s)
    ensures Feed(s, []) == s
  {
  }

  lemma ThreeParts(s: State, a: seq<Byte>, b: seq<Byte>, c: seq<Byte>)
    requires WellFormed(s)
    ensures Feed(Feed(Feed(s, a), b), c) == Feed(s, a + b + c)
  {
    FeedParts(s, a, b);
    FeedParts(s, a + b, c);
  }

  lemma TwoFills(s: State, a: nat, b: nat)
    requires WellFormed(s)
    ensures Feed(Feed(s, ZeroBytes(a)), ZeroBytes(b)) == Feed(s, ZeroBytes(a + b))
  {
    assert ZeroBytes(a) + ZeroBytes(b) == ZeroBytes(a + b);
    FeedParts(s, ZeroBytes(a), ZeroBytes(b));
  }

  /** Byte `i` of a counter, least significant first. */
  function ByteAt(x: nat, i: nat): Byte
    decreases i
  {
    if i == 0 then (x % 256) as Byte else ByteAt(x / 256, i - 1)
  }

  lemma {:induction false} BigEndianAt(x: nat, n: nat, i: nat)
    requires i < n
    ensures BigEndian(x, n)[n - 1 - i] == ByteAt(x, i)
  {
    if i > 0 {
      BigEndianAt(x / 256, n - 1, i - 1);
    }
  }

  lemma AbsorbNothing(s: State)
    requires WellFormed(s)
    ensures Absorb(s, []) == s
  {
  }

  lemma CompressIs(start: Hash, block: seq<Byte>, r: Hash)
    requires |block| == 64 && r == Rounds(start, block, 80)
    ensures Compress(start, block)
         == Hash(Add(start.a, r.a), Add(start.b, r.b), Add(start.c, r.c), Add(start.d, r.d), Add(start.e, r.e))
  {
    hide Rounds;
  }

  // ---- the digest of a whole message ----

  /** The state after some whole blocks and a rest shorter than a block. */
  predicate FedParts(s: State, blocks: seq<Byte>, rest: seq<Byte>) {
    && WellFormed(s) && |blocks| % 64 == 0 && |rest| < 64 && s.count == |rest|
    && s.h == Chain(blocks) && s.block == rest + ZeroBytes(64 - |rest|)
  }

  lemma ChainStep(blocks: seq<Byte>, block: seq<Byte>)
    requires |blocks| % 64 == 0 && |block| == 64
    ensures Chain(blocks + block) == Compress(Chain(blocks), block)
  {
    assert (blocks + block)[..|blocks + block| - 64] == blocks;
    assert (blocks + block)[|blocks + block| - 64..] == block;
  }

  lemma FedOneMore(s: State, blocks: seq<Byte>, rest: seq<Byte>, x: Byte)
    requires FedParts(s, blocks, rest)
    ensures |rest| < 63 ==> FedParts(Padded(s, x), blocks, rest + [x])
    ensures |rest| == 63 ==> FedParts(Padded(s, x), blocks + (rest + [x]), [])
  {
    hide Chain, Compress;
    if |rest| < 63 {
      assert s.block[s.count := x] == rest + [x] + ZeroBytes(63 - |rest|);
    } else {
      assert s.block[s.count := x] == rest + [x];
      ChainStep(blocks, rest + [x]);
      assert [] + ZeroBytes(64) == ZeroBytes(64);
    }
  }

  lemma Reassociate(blocks: seq<Byte>, rest: seq<Byte>, all: seq<Byte>, front: seq<Byte>, x: Byte)
    requires blocks + rest == all + front
    ensures blocks + (rest + [x]) == all + (front + [x])
  {
    assert blocks + (rest + [x]) == blocks + rest + [x];
    assert all + (front + [x]) == all + front + [x];
  }

  lemma RestIsShort(s: State, blocks: seq<Byte>, rest: seq<Byte>)
    requires FedParts(s, blocks, rest)
    ensures |rest| <= 63 && |blocks| % 64 == 0 && s.count == |rest|
  {
  }

  /** However many bytes are fed, the blocks and the rest together are all of them. */
  lemma {:induction false} FeedBlocks(s: State, blocks: seq<Byte>, rest: seq<Byte>, bytes: seq<Byte>)
    returns (blocks': seq<Byte>, rest': seq<Byte>)
    requires FedParts(s, blocks, rest)
    ensures FedParts(Feed(s, bytes), blocks', rest') && blocks' + rest' == blocks + rest + bytes
  {
    if bytes == [] {
      blocks', rest' := blocks, rest;
    } else {
      var front, x := bytes[..|bytes| - 1], bytes[|bytes| - 1];
      blocks', rest' := FeedBlocks(s, blocks, rest, front);
      blocks', rest' := FeedLast(s, blocks + rest, front, x, bytes, blocks', rest');
    }
  }

  lemma FeedStep(s: State, bytes: seq<Byte>)
    requires WellFormed(s) && bytes != []
    ensures Feed(s, bytes) == Padded(Feed(s, bytes[..|bytes| - 1]), bytes[|bytes| - 1])
  {
  }

  lemma FeedLast(s: State, all: seq<Byte>, front: seq<Byte>, x: Byte, bytes: seq<Byte>, blocks: seq<Byte>,
                 rest: seq<Byte>)
    returns (blocks': seq<Byte>, rest': seq<Byte>)
    requires WellFormed(s) && bytes != [] && front == bytes[..|bytes| - 1] && x == bytes[|bytes| - 1]
    requires FedParts(Feed(s, front), blocks, rest) && blocks + rest == all + front
    ensures FedParts(Feed(s, bytes), blocks', rest') && blocks' + rest' == all + bytes
  {
    hide FedParts, Padded, Feed;
    FeedStep(s, bytes);
    FedOneMore(Feed(s, front), blocks, rest, x);
    RestIsShort(Feed(s, front), blocks, rest);
    Reassociate(blocks, rest, all, front, x);
    assert front + [x] == bytes;
    if |rest| < 63 {
      blocks', rest' := blocks, rest + [x];
    } else {
      blocks', rest' := blocks + (rest + [x]), [];
    }
  }

  lemma WholeBlocks(s: State, blocks: seq<Byte>, rest: seq<Byte>, data: seq<Byte>)
    requires FedParts(s, blocks, rest) && blocks + rest == data && |data| % 64 == 0
    ensures s.h == Chain(data)
  {
    assert |rest| == 0;
    assert blocks == data;
  }

  lemma StartIsFed()
    ensures FedParts(START, [], []) && START.bits == 0
  {
    assert [] + ZeroBytes(64) == ZeroBytes(64);
  }

  lemma CountBits(s: State, bits: nat, blocks: seq<Byte>, rest: seq<Byte>)
    requires FedParts(s, blocks, rest)
    ensures FedParts(s.(bits := bits), blocks, rest)
  {
    hide Chain, ZeroBytes;
  }

  /** The state after a message, with its length counted. */
  lemma AbsorbedMessage(message: seq<Byte>) returns (blocks: seq<Byte>, rest: seq<Byte>)
    requires 8 * |message| < 0x1_0000_0000_0000_0000
    ensures var s := Absorb(START, message);
            FedParts(s, blocks, rest) && blocks + rest == message && s.bits == 8 * |message|
  {
    StartIsFed();
    hide START, Absorb, Feed, FedParts;
    AbsorbIsFeed(START, message);
    blocks, rest := FeedBlocks(START, [], [], message);
    assert [] + [] + message == message;
    CountBits(Feed(START, message), 8 * |message|, blocks, rest);
  }

  lemma PaddedIs(message: seq<Byte>, marker: seq<Byte>, zeros: seq<Byte>, length: seq<Byte>)
    requires marker == [0x80] && zeros == ZeroBytes(PaddingZeros(|message|)) && length == BigEndian(8 * |message|, 8)
    ensures message + (marker + zeros + length) == Pad(message)
  {
    hide ZeroBytes, BigEndian, PaddingZeros;
    assert message + (marker + zeros + length) == message + marker + zeros + length;
  }

  lemma CountIsRest(s: State, blocks: seq<Byte>, rest: seq<Byte>, message: seq<Byte>)
    requires FedParts(s, blocks, rest) && blocks + rest == message
    ensures PaddingZeros(s.count) == PaddingZeros(|message|)
  {
    RestIsShort(s, blocks, rest);
    hide FedParts;
    SameRemainder(|message|, |blocks|, |rest|);
  }

  lemma SameRemainder(n: nat, blocks: nat, rest: nat)
    requires n == blocks + rest && blocks % 64 == 0 && rest < 64
    ensures PaddingZeros(rest) == PaddingZeros(n)
  {
    assert n % 64 == rest;
  }

  /** Absorbing a message and padding it leads to the hash value the standard prescribes. */
  lemma PaddedMessage(message: seq<Byte>)
    requires 8 * |message| < 0x1_0000_0000_0000_0000
    ensures |Pad(message)| % 64 == 0
    ensures var s := Absorb(START, message);
            Feed(s, [0x80] + ZeroBytes(PaddingZeros(s.count)) + BigEndian(s.bits, 8)).h == Chain(Pad(message))
  {
    assert WellFormed(START);
    hide START, Absorb, Feed, Chain, BigEndian, ZeroBytes, FedParts, Pad, PaddingZeros;
    var s := Absorb(START, message);
    var blocks, rest := AbsorbedMessage(message);
    CountIsRest(s, blocks, rest, message);
    var zeros, length := ZeroBytes(PaddingZeros(|message|)), BigEndian(8 * |message|, 8);
    PaddedIs(message, [0x80], zeros, length);
    PaddedLength(message);
    blocks, rest := FeedBlocks(s, blocks, rest, [0x80] + zeros + length);
    WholeBlocks(Feed(s, [0x80] + zeros + length), blocks, rest, Pad(message));
  }

  /** The one-shot function. */
  method Sha1Digest(d: seq<Byte>, md: array<Byte>)
    requires md.Length == 20 && 8 * |d| < 0x1_0000_0000_0000_0000
    modifies md
    ensures md[..] == Digest(d)
  {
    hide Feed, Absorb, Chain, BigEndian, HashBytes;
    var ctx := new Context();
    ctx.Loop(d);
    PaddedMessage(d);
    ctx.Result(md);
  }
}
