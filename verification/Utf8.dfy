/** The resumable validator of UTF-8 text, against the grammar of section 4 of RFC 3629. */
module Utf8 {
  import opened Common

  // ---- the grammar ----

  predicate In(lo: Byte, c: Byte, hi: Byte) { lo <= c <= hi }

  predicate Tail(c: Byte) { In(0x80, c, 0xbf) }

  predicate IsChar1(s: seq<Byte>) { |s| == 1 && s[0] <= 0x7f }

  predicate IsChar2(s: seq<Byte>) { |s| == 2 && In(0xc2, s[0], 0xdf) && Tail(s[1]) }

  predicate IsChar3(s: seq<Byte>) {
    && |s| == 3 && Tail(s[2])
    && (|| (s[0] == 0xe0 && In(0xa0, s[1], 0xbf))
        || (In(0xe1, s[0], 0xec) && Tail(s[1]))
        || (s[0] == 0xed && In(0x80, s[1], 0x9f))
        || (In(0xee, s[0], 0xef) && Tail(s[1])))
  }

  predicate IsChar4(s: seq<Byte>) {
    && |s| == 4 && Tail(s[2]) && Tail(s[3])
    && (|| (s[0] == 0xf0 && In(0x90, s[1], 0xbf))
        || (In(0xf1, s[0], 0xf3) && Tail(s[1]))
        || (s[0] == 0xf4 && In(0x80, s[1], 0x8f)))
  }

  predicate IsChar(s: seq<Byte>) {
    IsChar1(s) || IsChar2(s) || IsChar3(s) || IsChar4(s)
  }

  /** A sequence of characters. */
  predicate WellFormed(s: seq<Byte>) {
    s == [] || exists n :: 1 <= n <= |s| && IsChar(s[..n]) && WellFormed(s[n..])
  }

  // ---- the validator ----

  const E0F4: seq<Byte> := [
    0xa0 | ((2 - 1) << 2) | 1, // e0
    0x80 | ((4 - 1) << 2) | 1, // e1
    0x80 | ((4 - 1) << 2) | 1,
    0x80 | ((4 - 1) << 2) | 1,
    0x80 | ((4 - 1) << 2) | 1,
    0x80 | ((4 - 1) << 2) | 1,
    0x80 | ((4 - 1) << 2) | 1,
    0x80 | ((4 - 1) << 2) | 1,
    0x80 | ((4 - 1) << 2) | 1,
    0x80 | ((4 - 1) << 2) | 1,
    0x80 | ((4 - 1) << 2) | 1,
    0x80 | ((4 - 1) << 2) | 1,
    0x80 | ((4 - 1) << 2) | 1, // ec
    0x80 | ((2 - 1) << 2) | 1, // ed
    0x80 | ((4 - 1) << 2) | 1, // ee
    0x80 | ((4 - 1) << 2) | 1, // ef
    0x90 | ((3 - 1) << 2) | 2, // f0
    0x80 | ((4 - 1) << 2) | 2, // f1
    0x80 | ((4 - 1) << 2) | 2,
    0x80 | ((4 - 1) << 2) | 2, // f3
    0x80 | ((1 - 1) << 2) | 2, // f4
    0,
    0x80 | ((4 - 1) << 2) | 0,
    0x80 | ((4 - 1) << 2) | 1]

  const START: Byte := 0

  /** The states between calls: what may follow, the range of the next byte first. */
  predicate IsState(s: Byte) {
    s in [0, 0x8c, 0x8d, 0xa5, 0x85, 0x9a, 0x8e, 0x82]
  }

  /** How many bytes the character still needs. */
  function Need(s: Byte): nat
    requires IsState(s)
  {
    if s == 0 then 0 else if s == 0x8c then 1 else if s in [0x8d, 0xa5, 0x85] then 2 else 3
  }

  /** The bytes that complete the character. */
  predicate Completes(s: Byte, t: seq<Byte>)
    requires IsState(s)
  {
    && |t| == Need(s)
    && (s == 0x8c ==> Tail(t[0]))
    && (s == 0x8d ==> Tail(t[0]) && Tail(t[1]))
    && (s == 0xa5 ==> In(0xa0, t[0], 0xbf) && Tail(t[1]))
    && (s == 0x85 ==> In(0x80, t[0], 0x9f) && Tail(t[1]))
    && (s == 0x9a ==> In(0x90, t[0], 0xbf) && Tail(t[1]) && Tail(t[2]))
    && (s == 0x8e ==> Tail(t[0]) && Tail(t[1]) && Tail(t[2]))
    && (s == 0x82 ==> In(0x80, t[0], 0x8f) && Tail(t[1]) && Tail(t[2]))
  }

  /** One byte, as the table and the masks have it. */
  function Next(s: Byte, c: Byte): (r: Option<Byte>)
    requires IsState(s)
    ensures r.Some? ==> IsState(r.value)
  {
    if s == 0 then
      if c < 0x80 then Some(0)
      else if c < 0xc2 || c > 0xf4 then None
      else if c < 0xe0 then Some(0x80 | ((4 - 1) << 2))
      else Some(E0F4[(c - 0xe0) as nat])
    else if c < (s & 0xf0) || c >= (s & 0xf0) + 0x10 + ((s << 2) & 0x30) then None
    else Some(E0F4[21 + (s & 3) as nat])
  }

  /** The state after all the bytes, or none when one of them was refused. */
  function Feed(s: Byte, buf: seq<Byte>): (r: Option<Byte>)
    requires IsState(s)
    ensures r.Some? ==> IsState(r.value)
    decreases |buf|
  {
    if buf == [] then Some(s) else
    var n := Next(s, buf[0]);
    if n.None? then None else Feed(n.value, buf[1..])
  }

  /** The validator keeps its state from call to call; a refusal leaves it as it was. */
  class Validator {
    var state: Byte

    ghost predicate Valid()
      reads this
    {
      IsState(state)
    }

    constructor ()
      ensures Valid() && state == START
    {
      state := START;
    }

    method CheckUtf8(buf: array<Byte>, len: nat) returns (r: int)
      requires Valid() && len <= buf.Length
      modifies this
      ensures Valid()
      ensures r == if Feed(old(state), buf[..len]).Some? then 0 else 1
      ensures state == if r == 0 then Feed(old(state), buf[..len]).value else old(state)
    {
      hide Next, IsState;
      var s := state;
      var i := 0;
      while i < len
        invariant i <= len && IsState(s)
        invariant Feed(state, buf[..len]) == Feed(s, buf[i..len])
      {
        assert buf[i..len][0] == buf[i] && buf[i..len][1..] == buf[i + 1..len];
        var n := Next(s, buf[i]);
        i := i + 1;
        if n.None? {
          return 1;
        }
        s := n.value;
      }
      state := s;
      return 0;
    }
  }

  // ---- the validator and the grammar ----

  /** The text from inside a character on. */
  predicate WellFormedFrom(s: Byte, t: seq<Byte>)
    requires IsState(s)
  {
    |t| >= Need(s) && Completes(s, t[..Need(s)]) && WellFormed(t[Need(s)..])
  }

  /** The first byte of a character. */
  lemma FirstByte(c: Byte, t: seq<Byte>)
    ensures IsChar([c] + t) <==> Next(0, c).Some? && Completes(Next(0, c).value, t)
  {
  }

  /** A further byte of a character. */
  lemma FurtherByte(s: Byte, c: Byte, t: seq<Byte>)
    requires IsState(s) && s != 0
    ensures Completes(s, [c] + t) <==> Next(s, c).Some? && Completes(Next(s, c).value, t)
  {
  }

  lemma NeedsNothing(s: Byte)
    requires IsState(s)
    ensures Need(s) == 0 <==> s == 0
  {
  }

  /** Reading one byte keeps exactly the texts that start with it. */
  lemma OneByte(s: Byte, c: Byte, t: seq<Byte>)
    requires IsState(s)
    ensures WellFormedFrom(s, [c] + t) <==> Next(s, c).Some? && WellFormedFrom(Next(s, c).value, t)
  {
    hide Next, Completes, IsChar, Need;
    NeedsNothing(s);
    if s == 0 {
      FirstOfChar(c, t);
    } else {
      FurtherOfChar(s, c, t);
    }
  }

  lemma FirstOfChar(c: Byte, t: seq<Byte>)
    ensures WellFormedFrom(0, [c] + t) <==> Next(0, c).Some? && WellFormedFrom(Next(0, c).value, t)
  {
    hide Next, IsChar, WellFormedFrom;
    FromStart([c] + t);
    if n :| 1 <= n <= 1 + |t| && IsChar(([c] + t)[..n]) && WellFormed(([c] + t)[n..]) {
      LeaveStart(c, t, n);
    }
    if Next(0, c).Some? && WellFormedFrom(Next(0, c).value, t) {
      var n := EnterChar(c, t);
    }
  }

  lemma FromStart(text: seq<Byte>)
    ensures WellFormedFrom(0, text) <==> WellFormed(text)
  {
    hide WellFormed, IsChar;
    assert text[0..] == text && text[..0] == [];
  }

  lemma LeaveStart(c: Byte, t: seq<Byte>, n: nat)
    requires 1 <= n <= 1 + |t| && IsChar(([c] + t)[..n]) && WellFormed(([c] + t)[n..])
    ensures Next(0, c).Some? && WellFormedFrom(Next(0, c).value, t)
  {
    hide Next, IsChar, WellFormed;
    assert ([c] + t)[..n] == [c] + t[..n - 1] && ([c] + t)[n..] == t[n - 1..];
    FirstByte(c, t[..n - 1]);
  }

  lemma EnterChar(c: Byte, t: seq<Byte>) returns (n: nat)
    requires Next(0, c).Some? && WellFormedFrom(Next(0, c).value, t)
    ensures 1 <= n <= 1 + |t| && IsChar(([c] + t)[..n]) && WellFormed(([c] + t)[n..])
  {
    hide Next, IsChar, WellFormed;
    n := Need(Next(0, c).value) + 1;
    assert ([c] + t)[..n] == [c] + t[..n - 1] && ([c] + t)[n..] == t[n - 1..];
    FirstByte(c, t[..n - 1]);
  }

  lemma FurtherOfChar(s: Byte, c: Byte, t: seq<Byte>)
    requires IsState(s) && s != 0
    ensures WellFormedFrom(s, [c] + t) <==> Next(s, c).Some? && WellFormedFrom(Next(s, c).value, t)
  {
    hide Next, IsState, WellFormed;
    var text := [c] + t;
    var n := Need(s);
    if |text| >= n {
      assert text[..n] == [c] + t[..n - 1] && text[n..] == t[n - 1..];
      FurtherByte(s, c, t[..n - 1]);
    }
    if Next(s, c).Some? && WellFormedFrom(Next(s, c).value, t) {
      FurtherByte(s, c, t[..Need(Next(s, c).value)]);
    }
  }

  lemma {:induction false} FeedFrom(s: Byte, t: seq<Byte>)
    requires IsState(s)
    ensures Feed(s, t) == Some(0) <==> WellFormedFrom(s, t)
    decreases |t|
  {
    hide Next;
    if t == [] {
      NeedsNothing(s);
      assert s == 0 ==> t[..0] == [] && t[0..] == [];
    } else {
      assert t == [t[0]] + t[1..];
      OneByte(s, t[0], t[1..]);
      if Next(s, t[0]).Some? {
        FeedFrom(Next(s, t[0]).value, t[1..]);
      }
    }
  }

  /** The validator ends between characters exactly on well-formed text. */
  lemma EndsOnBoundary(t: seq<Byte>)
    ensures Feed(START, t) == Some(START) <==> WellFormed(t)
  {
    FeedFrom(START, t);
    assert t[0..] == t && t[..0] == [];
  }

  /** The text may be handed over in pieces. */
  lemma {:induction false} InPieces(s: Byte, a: seq<Byte>, b: seq<Byte>)
    requires IsState(s)
    ensures Feed(s, a + b) == if Feed(s, a).None? then None else Feed(Feed(s, a).value, b)
    decreases |a|
  {
    hide Next;
    if a == [] {
      assert a + b == b;
    } else {
      assert (a + b)[0] == a[0] && (a + b)[1..] == a[1..] + b;
      if Next(s, a[0]).Some? {
        InPieces(Next(s, a[0]).value, a[1..], b);
      }
    }
  }

  /** Bytes that complete the character the validator is in. */
  function Completion(s: Byte): (t: seq<Byte>)
    requires IsState(s)
    ensures Completes(s, t)
  {
    if s == 0 then []
    else if s == 0x8c then [0x80]
    else if s == 0x8d then [0x80, 0x80]
    else if s == 0xa5 then [0xa0, 0x80]
    else if s == 0x85 then [0x80, 0x80]
    else if s == 0x9a then [0x90, 0x80, 0x80]
    else [0x80, 0x80, 0x80]
  }

  /** Accepted are exactly the beginnings of well-formed texts. */
  lemma AcceptsPrefixes(t: seq<Byte>)
    ensures Feed(START, t).Some? <==> exists rest :: WellFormed(t + rest)
  {
    if Feed(START, t).Some? {
      var s := Feed(START, t).value;
      var rest := Completion(s);
      assert rest[..Need(s)] == rest && rest[Need(s)..] == [];
      FeedFrom(s, rest);
      InPieces(START, t, rest);
      EndsOnBoundary(t + rest);
      assert WellFormed(t + rest);
    }
    if rest :| WellFormed(t + rest) {
      EndsOnBoundary(t + rest);
      InPieces(START, t, rest);
    }
  }

  /** The answer depends only on the bytes, not on how they were split into calls. */
  function FeedAll(s: Byte, pieces: seq<seq<Byte>>): (r: Option<Byte>)
    requires IsState(s)
    ensures r.Some? ==> IsState(r.value)
    decreases |pieces|
  {
    if pieces == [] then Some(s) else
    var n := Feed(s, pieces[0]);
    if n.None? then None else FeedAll(n.value, pieces[1..])
  }

  lemma {:induction false} AnySplit(s: Byte, pieces: seq<seq<Byte>>)
    requires IsState(s)
    ensures FeedAll(s, pieces) == Feed(s, Concat(pieces))
    decreases |pieces|
  {
    hide Feed, Next;
    if pieces == [] {
      FeedNothing(s);
    } else {
      InPieces(s, pieces[0], Concat(pieces[1..]));
      if Feed(s, pieces[0]).Some? {
        AnySplit(Feed(s, pieces[0]).value, pieces[1..]);
      }
    }
  }

  lemma FeedNothing(s: Byte)
    requires IsState(s)
    ensures Feed(s, []) == Some(s)
  {
  }

  /** What the callers rely on: from the start, any split, both answers. */
  lemma ValidatesUtf8(pieces: seq<seq<Byte>>)
    ensures FeedAll(START, pieces).Some? <==> exists rest :: WellFormed(Concat(pieces) + rest)
    ensures FeedAll(START, pieces) == Some(START) <==> WellFormed(Concat(pieces))
  {
    AnySplit(START, pieces);
    AcceptsPrefixes(Concat(pieces));
    EndsOnBoundary(Concat(pieces));
  }

  // ---- the grammar and the characters of Unicode ----

  /** Every code point but the surrogates. */
  predicate IsScalar(c: bv32) {
    c < 0xd800 || 0xe000 <= c <= 0x10ffff
  }

  /** The first byte: the marker of the length, and what is left above the lowest `n` bits. */
  function Lead(marker: bv32, c: bv32, n: bv6): Byte
    requires n < 32
  {
    ((marker | (c >> n)) & 0xff) as Byte
  }

  /** A further byte: six bits, from bit `n` on. */
  function Six(c: bv32, n: bv6): Byte
    requires n < 32
  {
    (0x80 | ((c >> n) & 0x3f)) as Byte
  }

  /** The bytes of a character, as section 3 of RFC 3629 lays out the bits of its number. */
  function CharBytes(c: bv32): (s: seq<Byte>)
    requires IsScalar(c)
    ensures s != []
  {
    if c < 0x80 then [Lead(0, c, 0)]
    else if c < 0x800 then [Lead(0xc0, c, 6), Six(c, 0)]
    else if c < 0x1_0000 then [Lead(0xe0, c, 12), Six(c, 6), Six(c, 0)]
    else [Lead(0xf0, c, 18), Six(c, 12), Six(c, 6), Six(c, 0)]
  }

  lemma ShortCharBytes(c: bv32)
    requires IsScalar(c) && c < 0x800
    ensures IsChar(CharBytes(c))
  {
  }

  lemma ThreeCharBytes(c: bv32)
    requires IsScalar(c) && 0x800 <= c < 0x1_0000
    ensures IsChar3(CharBytes(c))
  {
  }

  lemma SixIsTail(c: bv32, n: bv6)
    requires n < 32
    ensures Tail(Six(c, n))
  {
  }

  lemma FourLead(c: bv32)
    requires 0x1_0000 <= c <= 0x10ffff
    ensures var a, b := Lead(0xf0, c, 18), Six(c, 12);
            In(0xf0, a, 0xf4) && (a == 0xf0 ==> 0x90 <= b) && (a == 0xf4 ==> b <= 0x8f)
  {
  }

  lemma FourCharBytes(c: bv32)
    requires IsScalar(c) && 0x1_0000 <= c
    ensures IsChar4(CharBytes(c))
  {
    hide Lead, Six;
    FourLead(c);
    SixIsTail(c, 12);
    SixIsTail(c, 6);
    SixIsTail(c, 0);
  }

  /** The character a sequence of bytes stands for. */
  lemma ShortScalar(s: seq<Byte>) returns (c: bv32)
    requires IsChar1(s) || IsChar2(s)
    ensures IsScalar(c) && s == CharBytes(c)
  {
    if |s| == 1 {
      c := s[0] as bv32;
    } else {
      c := ((s[0] & 0x1f) as bv32 << 6) | (s[1] & 0x3f) as bv32;
    }
  }

  function Scalar3(a: Byte, b: Byte, c: Byte): bv32 {
    ((a & 0x0f) as bv32 << 12) | ((b & 0x3f) as bv32 << 6) | (c & 0x3f) as bv32
  }

  lemma Bits3(a: Byte, b: Byte, c: Byte)
    requires 0xe0 <= a <= 0xef && Tail(b) && Tail(c)
    ensures var x := Scalar3(a, b, c); x < 0x1_0000 && Lead(0xe0, x, 12) == a && Six(x, 6) == b && Six(x, 0) == c
  {
  }

  lemma Range3(a: Byte, b: Byte, c: Byte)
    requires 0xe0 <= a <= 0xef && Tail(b) && Tail(c)
    ensures Scalar3(a, b, c) >= 0x800 <==> a != 0xe0 || b >= 0xa0
    ensures IsScalar(Scalar3(a, b, c)) <==> a != 0xed || b <= 0x9f
  {
  }

  function Scalar4(a: Byte, b: Byte, c: Byte, d: Byte): bv32 {
    ((a & 0x07) as bv32 << 18) | ((b & 0x3f) as bv32 << 12) | ((c & 0x3f) as bv32 << 6) | (d & 0x3f) as bv32
  }

  lemma Bits4(a: Byte, b: Byte, c: Byte, d: Byte)
    requires 0xf0 <= a <= 0xf4 && Tail(b) && Tail(c) && Tail(d)
    ensures var x := Scalar4(a, b, c, d);
            Lead(0xf0, x, 18) == a && Six(x, 12) == b && Six(x, 6) == c && Six(x, 0) == d
  {
  }

  lemma Range4(a: Byte, b: Byte, c: Byte, d: Byte)
    requires 0xf0 <= a <= 0xf4 && Tail(b) && Tail(c) && Tail(d)
    ensures Scalar4(a, b, c, d) >= 0x1_0000 <==> a != 0xf0 || b >= 0x90
    ensures Scalar4(a, b, c, d) <= 0x10ffff <==> a != 0xf4 || b <= 0x8f
  {
  }

  lemma Long3(s: seq<Byte>)
    requires IsChar3(s)
    ensures var x := Scalar3(s[0], s[1], s[2]); IsScalar(x) && s == CharBytes(x)
  {
    hide Scalar3, Lead, Six;
    Bits3(s[0], s[1], s[2]);
    Range3(s[0], s[1], s[2]);
  }

  lemma Long4(s: seq<Byte>)
    requires IsChar4(s)
    ensures var x := Scalar4(s[0], s[1], s[2], s[3]); IsScalar(x) && s == CharBytes(x)
  {
    hide Scalar4, Lead, Six;
    Bits4(s[0], s[1], s[2], s[3]);
    Range4(s[0], s[1], s[2], s[3]);
  }

  /** The grammar has exactly the bytes of the characters. */
  lemma CharWhen(s: seq<Byte>)
    ensures IsChar(s) <==> exists c :: IsScalar(c) && s == CharBytes(c)
  {
    hide CharBytes, IsScalar, Scalar3, Scalar4;
    if IsChar(s) {
      var c;
      if IsChar3(s) {
        c := Scalar3(s[0], s[1], s[2]);
        Long3(s);
      } else if IsChar4(s) {
        c := Scalar4(s[0], s[1], s[2], s[3]);
        Long4(s);
      } else {
        c := ShortScalar(s);
      }
    }
    if c :| IsScalar(c) && s == CharBytes(c) {
      if c < 0x800 {
        ShortCharBytes(c);
      } else if c < 0x1_0000 {
        ThreeCharBytes(c);
      } else {
        FourCharBytes(c);
      }
    }
  }

  predicate AllScalars(text: seq<bv32>) {
    forall i :: 0 <= i < |text| ==> IsScalar(text[i])
  }

  function TextBytes(text: seq<bv32>): seq<Byte>
    requires AllScalars(text)
  {
    if text == [] then [] else CharBytes(text[0]) + TextBytes(text[1..])
  }

  lemma FirstChar(s: seq<Byte>) returns (n: nat)
    requires s != [] && WellFormed(s)
    ensures 1 <= n <= |s| && IsChar(s[..n]) && WellFormed(s[n..])
  {
    hide IsChar;
    n :| 1 <= n <= |s| && IsChar(s[..n]) && WellFormed(s[n..]);
  }

  lemma ThenText(s: seq<Byte>, n: nat)
    requires 1 <= n <= |s| && IsChar(s[..n]) && WellFormed(s[n..])
    ensures WellFormed(s)
  {
    hide IsChar;
  }

  lemma {:induction false} TextOf(s: seq<Byte>) returns (text: seq<bv32>)
    requires WellFormed(s)
    ensures AllScalars(text) && s == TextBytes(text)
  {
    if s == [] {
      return [];
    }
    hide IsChar, CharBytes;
    hide WellFormed, IsScalar;
    var n := FirstChar(s);
    CharWhen(s[..n]);
    var c :| IsScalar(c) && s[..n] == CharBytes(c);
    var rest := TextOf(s[n..]);
    text := [c] + rest;
    assert s == s[..n] + s[n..] && text[0] == c && text[1..] == rest;
  }

  lemma {:induction false} TextIsWellFormed(text: seq<bv32>)
    requires AllScalars(text)
    ensures WellFormed(TextBytes(text))
  {
    if text != [] {
      hide IsChar, CharBytes, IsScalar, WellFormed;
      var s, n := TextBytes(text), |CharBytes(text[0])|;
      CharWhen(CharBytes(text[0]));
      TextIsWellFormed(text[1..]);
      assert s[..n] == CharBytes(text[0]) && s[n..] == TextBytes(text[1..]);
      ThenText(s, n);
    }
  }

  /** From the start, the validator ends between characters exactly on the bytes of Unicode texts. */
  lemma AcceptsExactlyUnicode(pieces: seq<seq<Byte>>)
    ensures FeedAll(0, pieces) == Some(0) <==>
            exists text :: AllScalars(text) && Concat(pieces) == TextBytes(text)
  {
    ValidatesUtf8(pieces);
    hide FeedAll, WellFormed, CharBytes;
    if WellFormed(Concat(pieces)) {
      var text := TextOf(Concat(pieces));
    }
    if text :| AllScalars(text) && Concat(pieces) == TextBytes(text) {
      TextIsWellFormed(text);
    }
  }
}
