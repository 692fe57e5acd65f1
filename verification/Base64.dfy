/** Base64 with two alphabets, and a decoder that accepts both and skips everything else. */
module Base64 {
  import opened Common

  /** So many characters in the order of their codes. */
  function Range(first: char, n: nat): (r: string)
    requires first as int + n <= 128
    ensures |r| == n && forall i :: 0 <= i < n ==> r[i] as int == first as int + i
  {
    seq(n, i requires 0 <= i < n => (first as int + i) as char)
  }

  function LettersAndDigits(): (r: string)
    ensures |r| == 62
  {
    Range('A', 26) + Range('a', 26) + Range('0', 10)
  }

  /** The alphabets of sections 4 and 5 of RFC 4648. */
  const ENCODE_ORIG: string := LettersAndDigits() + "+/"
  const ENCODE_URL: string := LettersAndDigits() + "-_"

  /** What the characters from '+' to 'z' stand for: a dollar sign for nothing. */
  const DECODE: string := "|$$$}" + Range('r', 10) + "$$$$$$$" + Range('>', 26) + "$$$$$$" + Range('X', 26)

  predicate IsAlphabet(a: string) {
    a == ENCODE_ORIG || a == ENCODE_URL
  }

  // ---- the encoder ----

  /** The four characters of one to three bytes; missing bytes count as zero. */
  function Group(a: string, s: seq<Byte>): (r: string)
    requires |a| == 64 && 1 <= |s| <= 3
    ensures |r| == 4
  {
    Four(a, s[0], if |s| > 1 then s[1] else 0, if |s| > 2 then s[2] else 0, |s|)
  }

  function Four(a: string, t0: Byte, t1: Byte, t2: Byte, len: nat): (r: string)
    requires |a| == 64
    ensures |r| == 4
  {
    [a[Sextet0(t0) as nat], a[Sextet1(t0, t1) as nat],
     if len > 1 then a[Sextet2(t1, t2) as nat] else '=', if len > 2 then a[Sextet3(t2) as nat] else '=']
  }

  function Sextet0(t0: Byte): (r: Byte)
    ensures r < 64
  {
    t0 >> 2
  }

  function Sextet1(t0: Byte, t1: Byte): (r: Byte)
    ensures r < 64
  {
    ((t0 & 0x03) << 4) | ((t1 & 0xf0) >> 4)
  }

  function Sextet2(t1: Byte, t2: Byte): (r: Byte)
    ensures r < 64
  {
    ((t1 & 0x0f) << 2) | ((t2 & 0xc0) >> 6)
  }

  function Sextet3(t2: Byte): (r: Byte)
    ensures r < 64
  {
    t2 & 0x3f
  }

  /** The four sextets one behind the other are the three bytes one behind the other. */
  lemma SextetsConcatenate(t0: Byte, t1: Byte, t2: Byte)
    ensures (Sextet0(t0) as bv24 << 18) | (Sextet1(t0, t1) as bv24 << 12)
            | (Sextet2(t1, t2) as bv24 << 6) | Sextet3(t2) as bv24
         == (t0 as bv24 << 16) | (t1 as bv24 << 8) | t2 as bv24
  {
  }

  function FirstThree(s: seq<Byte>): nat { if |s| < 3 then |s| else 3 }

  function Encode(a: string, s: seq<Byte>): string
    requires |a| == 64
  {
    if s == [] then "" else Group(a, s[..FirstThree(s)]) + Encode(a, s[FirstThree(s)..])
  }

  lemma {:induction false} EncodedLength(a: string, s: seq<Byte>)
    requires |a| == 64
    ensures |Encode(a, s)| == (|s| + 2) / 3 * 4
  {
    if s != [] {
      EncodedLength(a, s[FirstThree(s)..]);
    }
  }

  /** Takes up to three bytes of the input; the missing ones are zero. */
  method TakeTriple(data: seq<Byte>, p: nat) returns (triple: seq<Byte>, len: nat)
    requires p < |data|
    ensures len == FirstThree(data[p..]) && |triple| == 3 && triple[..len] == data[p..p + len]
    ensures forall i :: len <= i < 3 ==> triple[i] == 0
  {
    triple, len := [0, 0, 0], 0;
    for i := 0 to 3
      invariant len == (if p + i <= |data| then i else |data| - p) && |triple| == 3
      invariant forall k :: 0 <= k < 3 ==> triple[k] == if k < len then data[p + k] else 0
    {
      if p + len != |data| {
        triple := triple[i := data[p + len]];
        len := len + 1;
      }
    }
  }

  /** The four characters of a triple. */
  method Characters(a: string, triple: seq<Byte>, len: nat) returns (c0: char, c1: char, c2: char, c3: char)
    requires |a| == 64 && |triple| == 3 && 1 <= len <= 3
    requires forall i :: len <= i < 3 ==> triple[i] == 0
    ensures [c0, c1, c2, c3] == Group(a, triple[..len])
  {
    var t0, t1, t2 := triple[0], triple[1], triple[2];
    TripleGroup(a, triple, len);
    hide Group;
    c0 := a[Sextet0(t0) as nat];
    c1 := a[Sextet1(t0, t1) as nat];
    c2 := if len > 1 then a[Sextet2(t1, t2) as nat] else '=';
    c3 := if len > 2 then a[Sextet3(t2) as nat] else '=';
  }

  lemma TripleGroup(a: string, triple: seq<Byte>, len: nat)
    requires |a| == 64 && |triple| == 3 && 1 <= len <= 3
    requires forall i :: len <= i < 3 ==> triple[i] == 0
    ensures Group(a, triple[..len]) == Four(a, triple[0], triple[1], triple[2], len)
  {
    hide Four;
  }

  method PutFour(out: array<char>, done: nat, c0: char, c1: char, c2: char, c3: char)
    requires done + 4 <= out.Length
    modifies out
    ensures out[..done + 4] == old(out[..done]) + [c0, c1, c2, c3]
    ensures forall i :: done + 4 <= i < out.Length ==> out[i] == old(out[i])
  {
    out[done] := c0;
    out[done + 1] := c1;
    out[done + 2] := c2;
    out[done + 3] := c3;
  }

  lemma EncodeStep(a: string, data: seq<Byte>, p: nat)
    requires |a| == 64 && p < |data|
    ensures var len := FirstThree(data[p..]);
            && Encode(a, data[p..]) == Group(a, data[p..p + len]) + Encode(a, data[p + len..])
            && |Encode(a, data[p..])| == 4 + |Encode(a, data[p + len..])|
  {
    var len := FirstThree(data[p..]);
    assert data[p..][..len] == data[p..p + len] && data[p..][len..] == data[p + len..];
  }

  lemma EncodeNothing(a: string, s: seq<Byte>, p: nat)
    requires |a| == 64 && p == |s|
    ensures Encode(a, s[p..]) == ""
  {
  }

  /** Encodes into a bounded buffer, which must hold the encoding, its terminator and one byte more. */
  method EncodeString(a: string, data: seq<Byte>, out: array<char>, outSize: int) returns (r: int)
    requires |a| == 64 && outSize <= out.Length
    modifies out
    ensures r == if |Encode(a, data)| + 2 <= outSize then |Encode(a, data)| else -1
    ensures r >= 0 ==> out[..r] == Encode(a, data) && out[r] == '\0'
    ensures forall i :: 0 <= i < out.Length && outSize <= i ==> out[i] == old(out[i])
  {
    hide Encode, Group;
    ghost var goal := Encode(a, data);
    var p: nat, done: nat := 0, 0;
    assert data[0..] == data;
    while p < |data|
      invariant p <= |data| && done + |Encode(a, data[p..])| == |goal|
      invariant done <= out.Length && out[..done] + Encode(a, data[p..]) == goal
      invariant forall i :: 0 <= i < out.Length && outSize <= i ==> out[i] == old(out[i])
    {
      var triple, len := TakeTriple(data, p);
      EncodeStep(a, data, p);
      if done + 4 >= outSize {
        return -1;
      }
      var c0, c1, c2, c3 := Characters(a, triple, len);
      PutFour(out, done, c0, c1, c2, c3);
      done := done + 4;
      p := p + len;
    }
    EncodeNothing(a, data, p);
    if done + 1 >= outSize {
      return -1;
    }
    out[done] := '\0';
    return done;
  }

  // ---- the decoder ----

  /** The two characters that differ in the second alphabet stand for those of the first. */
  function Canonical(c: char): char {
    if c == '-' then '+' else if c == '_' then '/' else c
  }

  /** One more than the value of a character of either alphabet; zero for any other character. */
  function Value(c: char): (v: int)
    ensures 0 <= v <= 64
  {
    if 'A' <= c <= 'Z' then c as int - 64
    else if 'a' <= c <= 'z' then c as int - 70
    else if '0' <= c <= '9' then c as int + 5
    else if c == '+' || c == '-' then 63
    else if c == '/' || c == '_' then 64
    else 0
  }

  /** The decoder's look-up finds the value. */
  method LookUp(c: char) returns (k: char, v: int)
    ensures k == Canonical(c) && v == Value(c)
  {
    k := c;
    if k == '-' {
      k := '+';
    }
    if k == '_' {
      k := '/';
    }
    v := if k as int < 43 || k as int > 122 then 0 else DECODE[k as int - 43] as int;
    if v != 0 {
      v := if v == '$' as int then 0 else v - 61;
    }
  }

  lemma AlphabetValue(a: string, v: nat)
    requires IsAlphabet(a) && v < 64
    ensures Value(a[v]) == v + 1 && Canonical(a[v]) != '='
  {
  }

  /** The next character with a value, or the last character if there is none, and what follows it. */
  datatype Scan = Scan(rest: string, c: char, v: int)

  function Skip(t: string): (r: Scan)
    requires t != ""
    ensures |r.rest| < |t| && 0 <= r.v <= 64
  {
    if Value(t[0]) != 0 || |t| == 1 then Scan(t[1..], Canonical(t[0]), Value(t[0])) else Skip(t[1..])
  }

  /** A value goes into its place in the quad; without a value the place stays as it was. */
  function Put(digits: seq<Byte>, i: nat, v: int): (r: seq<Byte>)
    requires |digits| == 4 && i < 4 && 0 <= v <= 64
    ensures |r| == 4
  {
    if v != 0 then digits[i := (v - 1) as Byte] else digits
  }

  /** Up to four characters with a value; a missing value leaves its place in the quad as it was. */
  datatype Quad = Quad(rest: string, len: nat, c: char, digits: seq<Byte>)

  function ReadQuad(t: string, i: nat, c: char, digits: seq<Byte>): (r: Quad)
    requires |digits| == 4 && i <= 4
    ensures |r.digits| == 4 && r.len <= 4 && |r.rest| <= |t| && (t != "" && i < 4 ==> |r.rest| < |t| && r.len >= 1)
    decreases 4 - i
  {
    if i == 4 || t == "" then Quad(t, i, c, digits) else
    var s := Skip(t);
    ReadQuad(s.rest, i + 1, s.c, Put(digits, i, s.v))
  }

  /** The bytes of a quad. */
  function QuadBytes(digits: seq<Byte>, len: nat): (r: seq<Byte>)
    requires |digits| == 4
    ensures |r| == if len <= 1 then 0 else if len < 4 then len - 1 else 3
  {
    (if len >= 2 then [(digits[0] << 2) | (digits[1] >> 4)] else [])
    + (if len >= 3 then [(digits[1] << 4) | (digits[2] >> 2)] else [])
    + (if len >= 4 then [((digits[2] << 6) & 0xc0) | digits[3]] else [])
  }

  /** A padding character at the very end takes one off. */
  function QuadLength(g: Quad): (len: nat)
    requires g.len >= 1
    ensures len <= g.len
  {
    if g.rest == "" && g.c == '=' then g.len - 1 else g.len
  }

  datatype Answer = TooSmall | Answer(count: int, bytes: seq<Byte>)

  /** The count that is returned and the bytes that are written; `digits` is what the quad holds at first. */
  function Decode(t: string, digits: seq<Byte>, done: int, outSize: int): (r: Answer)
    requires |digits| == 4
    decreases |t|
  {
    if t == "" then if done + 1 >= outSize then TooSmall else Answer(done, [])
    else
      var g := ReadQuad(t, 0, '\0', digits);
      if outSize < done + g.len - 1 then TooSmall else
      match Decode(g.rest, g.digits, done + QuadLength(g) - 1, outSize)
      case TooSmall => TooSmall
      case Answer(count, bytes) => Answer(count, QuadBytes(g.digits, QuadLength(g)) + bytes)
  }

  // ---- the decoder's loops ----

  /**
   * The input is `text`: it ends after `inLen` characters or at the first NUL; a negative length stands for no limit.
   */
  predicate IsInput(input: string, inLen: int, text: string) {
    && |text| <= |input| && input[..|text|] == text && '\0' !in text
    && (inLen == |text| || (|text| < |input| && input[|text|] == '\0' && (inLen < 0 || |text| <= inLen)))
  }

  /** The condition in front of every character. */
  predicate More(input: string, inLen: int, p: nat)
    requires inLen != p ==> p < |input|
  {
    inLen - p != 0 && input[p] != '\0'
  }

  lemma MoreIs(input: string, inLen: int, text: string, p: nat)
    requires IsInput(input, inLen, text) && p <= |text|
    ensures (inLen != p ==> p < |input|) && (More(input, inLen, p) <==> p < |text|)
    ensures p < |text| ==> input[p] == text[p] && text[p..][0] == text[p] && text[p..][1..] == text[p + 1..]
  {
    if p < |text| {
      assert input[..|text|][p] == text[p];
    }
  }

  method SkipInvalid(input: string, inLen: int, p0: nat, ghost text: string) returns (p: nat, c: char, v: int)
    requires IsInput(input, inLen, text) && p0 < |text|
    ensures p0 < p <= |text| && Skip(text[p0..]) == Scan(text[p..], c, v)
  {
    p, c, v := p0, '\0', 0;
    MoreIs(input, inLen, text, p);
    while More(input, inLen, p) && v == 0
      invariant p0 <= p <= |text| && (inLen != p ==> p < |input|) && (More(input, inLen, p) <==> p < |text|)
      invariant v == 0 && p < |text| ==> Skip(text[p0..]) == Skip(text[p..])
      invariant v != 0 || p == |text| ==> Skip(text[p0..]) == Scan(text[p..], c, v)
      invariant v != 0 ==> p0 < p
      decreases |text| - p
    {
      MoreIs(input, inLen, text, p);
      c, v := LookUp(input[p]);
      p := p + 1;
      MoreIs(input, inLen, text, p);
    }
  }

  method ReadGroup(input: string, inLen: int, p0: nat, quad0: seq<Byte>, ghost text: string)
    returns (p: nat, len: nat, c: char, quad: seq<Byte>)
    requires IsInput(input, inLen, text) && p0 < |text| && |quad0| == 4
    ensures p0 < p <= |text| && |quad| == 4 && 1 <= len <= 4
    ensures ReadQuad(text[p0..], 0, '\0', quad0) == Quad(text[p..], len, c, quad)
  {
    hide IsInput, More, Skip;
    p, len, c, quad := p0, 0, '\0', quad0;
    var i := 0;
    MoreIs(input, inLen, text, p);
    while i < 4 && More(input, inLen, p)
      invariant i <= 4 && len == i && |quad| == 4 && p0 <= p <= |text| && (i > 0 ==> p0 < p)
      invariant (inLen != p ==> p < |input|) && (More(input, inLen, p) <==> p < |text|)
      invariant ReadQuad(text[p0..], 0, '\0', quad0) == ReadQuad(text[p..], i, c, quad)
    {
      var v;
      p, c, v := SkipInvalid(input, inLen, p, text);
      len := len + 1;
      if v != 0 {
        quad := quad[i := (v - 1) as Byte];
      }
      i := i + 1;
      MoreIs(input, inLen, text, p);
    }
  }

  /** Writes the bytes of a quad. */
  method PutQuad(out: array<Byte>, w: nat, quad: seq<Byte>, len: nat) returns (r: nat)
    requires |quad| == 4 && w + |QuadBytes(quad, len)| <= out.Length
    modifies out
    ensures r == w + |QuadBytes(quad, len)| && out[..r] == old(out[..w]) + QuadBytes(quad, len)
    ensures forall i :: r <= i < out.Length ==> out[i] == old(out[i])
  {
    r := w;
    if len >= 2 {
      out[r] := (quad[0] << 2) | (quad[1] >> 4);
      r := r + 1;
    }
    if len >= 3 {
      out[r] := (quad[1] << 4) | (quad[2] >> 2);
      r := r + 1;
    }
    if len >= 4 {
      out[r] := ((quad[2] << 6) & 0xc0) | quad[3];
      r := r + 1;
    }
  }

  /** Bytes already written, in front of what is still decoded. */
  function Behind(bytes: seq<Byte>, r: Answer): Answer {
    match r
    case TooSmall => TooSmall
    case Answer(count, rest) => Answer(count, bytes + rest)
  }

  lemma DecodeStep(t: string, digits: seq<Byte>, done: int, outSize: int, bytes: seq<Byte>)
    requires |digits| == 4 && t != ""
    ensures var g := ReadQuad(t, 0, '\0', digits);
            Behind(bytes, Decode(t, digits, done, outSize)) ==
              if outSize < done + g.len - 1 then TooSmall else
              Behind(bytes + QuadBytes(g.digits, QuadLength(g)),
                     Decode(g.rest, g.digits, done + QuadLength(g) - 1, outSize))
  {
    hide ReadQuad, QuadBytes, QuadLength;
    var g := ReadQuad(t, 0, '\0', digits);
    var r := Decode(g.rest, g.digits, done + QuadLength(g) - 1, outSize);
    if r.Answer? {
      var group := QuadBytes(g.digits, QuadLength(g));
      assert bytes + (group + r.bytes) == bytes + group + r.bytes;
    }
  }

  lemma DecodeEnd(t: string, digits: seq<Byte>, done: int, outSize: int, bytes: seq<Byte>)
    requires |digits| == 4
    ensures t == "" ==>
              Behind(bytes, Decode(t, digits, done, outSize))
              == if done + 1 >= outSize then TooSmall else Answer(done, bytes)
    ensures Behind([], Decode(t, digits, done, outSize)) == Decode(t, digits, done, outSize)
  {
    var r := Decode(t, digits, done, outSize);
    assert r.Answer? ==> [] + r.bytes == r.bytes;
    assert bytes + [] == bytes;
  }

  /** Decodes into a bounded buffer; `garbage` is what the quad holds at first. */
  method DecodeString(input: string, inLen: int, out: array<Byte>, outSize: int, garbage: seq<Byte>, ghost text: string)
    returns (r: int, ghost end: nat)
    requires IsInput(input, inLen, text) && outSize <= out.Length && |garbage| == 4
    modifies out
    ensures var answer := Decode(text, garbage, 0, outSize);
            && r == (if answer.TooSmall? then -1 else answer.count)
            && (answer.Answer? ==> end < out.Length && out[..end] == answer.bytes && out[end] == 0)
    ensures forall i :: 0 <= i < out.Length && outSize <= i ==> out[i] == old(out[i])
  {
    hide IsInput, More, ReadQuad, QuadBytes, Decode;
    var p: nat, done: int, w: nat, quad := 0, 0, 0, garbage;
    DecodeEnd(text, garbage, 0, outSize, []);
    MoreIs(input, inLen, text, p);
    assert text[0..] == text;
    while More(input, inLen, p)
      invariant p <= |text| && |quad| == 4 && w <= out.Length && (done == w || (p == |text| && done == w - 1))
      invariant forall i :: 0 <= i < out.Length && outSize <= i ==> out[i] == old(out[i])
      invariant (inLen != p ==> p < |input|) && (More(input, inLen, p) <==> p < |text|)
      invariant Behind(out[..w], Decode(text[p..], quad, done, outSize)) == Decode(text, garbage, 0, outSize)
      decreases |text| - p
    {
      DecodeStep(text[p..], quad, done, outSize, out[..w]);
      var len, c;
      p, len, c, quad := ReadGroup(input, inLen, p, quad, text);
      if outSize < done + len - 1 {
        return -1, 0;
      }
      MoreIs(input, inLen, text, p);
      if !More(input, inLen, p) && c == '=' {
        len := len - 1;
      }
      w := PutQuad(out, w, quad, len);
      done := done + len - 1;
    }
    DecodeEnd(text[p..], quad, done, outSize, out[..w]);
    if done + 1 >= outSize {
      return -1, 0;
    }
    out[w] := 0;
    return done, w;
  }

  // ---- round trip ----

  predicate Junk(t: string) {
    forall c :: c in t ==> Value(c) == 0
  }

  /** The text `t` is the text `e` with characters of no value put in front of some of its characters. */
  predicate Interleaved(e: string, t: string) {
    if e == "" then t == "" else
    exists k :: 0 <= k < |t| && Junk(t[..k]) && t[k] == e[0] && Interleaved(e[1..], t[k + 1..])
  }

  lemma {:induction false} SkipsJunk(t: string, k: nat)
    requires k < |t| && Junk(t[..k]) && Value(t[k]) != 0
    ensures Skip(t) == Scan(t[k + 1..], Canonical(t[k]), Value(t[k]))
  {
    if k > 0 {
      assert t[0] in t[..k];
      assert t[..k] == [t[0]] + t[1..][..k - 1];
      SkipsJunk(t[1..], k - 1);
    }
  }

  lemma {:induction false} SkipsToEnd(t: string)
    requires t != "" && Junk(t)
    ensures Skip(t) == Scan("", Canonical(t[|t| - 1]), 0)
  {
    if |t| > 1 {
      SkipsToEnd(t[1..]);
    }
  }

  lemma FirstOf(e: string, t: string) returns (k: nat)
    requires Interleaved(e, t) && e != ""
    ensures k < |t| && Junk(t[..k]) && t[k] == e[0] && Interleaved(e[1..], t[k + 1..])
  {
    k :| 0 <= k < |t| && Junk(t[..k]) && t[k] == e[0] && Interleaved(e[1..], t[k + 1..]);
  }

  lemma SkipToDigit(a: string, v: nat, e: string, t: string)
    requires IsAlphabet(a) && v < 64 && Interleaved([a[v]] + e, t)
    ensures t != "" && Skip(t).v == v + 1 && Skip(t).c != '=' && Interleaved(e, Skip(t).rest)
  {
    hide Interleaved, Value;
    AlphabetValue(a, v);
    assert ([a[v]] + e)[1..] == e;
    var k := FirstOf([a[v]] + e, t);
    SkipsJunk(t, k);
  }

  /** Padding characters have no value, and the last of them ends the text. */
  lemma PaddingIsJunk(e: string, t: string)
    requires Interleaved(e, t) && (e == "=" || e == "==")
    ensures t != "" && Junk(t) && t[|t| - 1] == '='
  {
    hide Interleaved;
    var k := FirstOf(e, t);
    assert t == t[..k] + [t[k]] + t[k + 1..];
    if e == "=" {
      assert e[1..] == "";
      NothingLeft(t[k + 1..]);
    } else {
      assert e[1..] == "=";
      PaddingIsJunk("=", t[k + 1..]);
    }
  }

  lemma NothingLeft(t: string)
    requires Interleaved("", t)
    ensures t == ""
  {
  }

  /** One digit of a group. */
  lemma ReadsDigit(a: string, v: Byte, e: string, t: string, i: nat, c: char, digits: seq<Byte>)
    returns (rest: string, c': char)
    requires IsAlphabet(a) && v < 64 && Interleaved([a[v as nat]] + e, t) && i < 4 && |digits| == 4
    ensures ReadQuad(t, i, c, digits) == ReadQuad(rest, i + 1, c', digits[i := v])
    ensures Interleaved(e, rest) && c' != '='
  {
    hide Interleaved, IsAlphabet;
    SkipToDigit(a, v as nat, e, t);
    DigitBack(v);
    rest, c' := Skip(t).rest, Skip(t).c;
  }

  lemma DigitBack(v: Byte)
    ensures (v as int + 1 - 1) as Byte == v
  {
  }

  lemma ReadsPadding(e: string, t: string, i: nat, c: char, digits: seq<Byte>)
    requires (e == "=" || e == "==") && Interleaved(e, t) && i < 4 && |digits| == 4
    ensures ReadQuad(t, i, c, digits) == Quad("", i + 1, '=', digits)
  {
    hide Interleaved;
    PaddingIsJunk(e, t);
    SkipsToEnd(t);
  }

  lemma ReadsTwo(a: string, v0: Byte, v1: Byte, e: string, t: string, digits: seq<Byte>) returns (rest: string, c: char)
    requires |a| == 64 && IsAlphabet(a) && v0 < 64 && v1 < 64 && |digits| == 4
    requires Interleaved([a[v0 as nat]] + ([a[v1 as nat]] + e), t)
    ensures ReadQuad(t, 0, '\0', digits) == ReadQuad(rest, 2, c, digits[0 := v0][1 := v1])
    ensures Interleaved(e, rest)
  {
    hide Interleaved, IsAlphabet, ReadQuad;
    rest, c := ReadsDigit(a, v0, [a[v1 as nat]] + e, t, 0, '\0', digits);
    rest, c := ReadsDigit(a, v1, e, rest, 1, c, digits[0 := v0]);
  }

  lemma ReadsFour(a: string, v0: Byte, v1: Byte, v2: Byte, v3: Byte, e: string, t: string, digits: seq<Byte>)
    requires |a| == 64 && IsAlphabet(a) && v0 < 64 && v1 < 64 && v2 < 64 && v3 < 64 && |digits| == 4
    requires Interleaved([a[v0 as nat]] + ([a[v1 as nat]] + ([a[v2 as nat]] + ([a[v3 as nat]] + e))), t)
    ensures var g := ReadQuad(t, 0, '\0', digits);
            && g.len == 4 && g.c != '=' && Interleaved(e, g.rest)
            && g.digits == [v0, v1, v2, v3]
  {
    hide Interleaved, IsAlphabet, ReadQuad;
    var rest, c := ReadsTwo(a, v0, v1, [a[v2 as nat]] + ([a[v3 as nat]] + e), t, digits);
    var d := digits[0 := v0][1 := v1];
    rest, c := ReadsDigit(a, v2, [a[v3 as nat]] + e, rest, 2, c, d);
    d := d[2 := v2];
    rest, c := ReadsDigit(a, v3, e, rest, 3, c, d);
    d := d[3 := v3];
    ReadsEnd(rest, c, d);
    assert d == [v0, v1, v2, v3];
  }

  lemma ReadsEnd(t: string, c: char, digits: seq<Byte>)
    requires |digits| == 4
    ensures ReadQuad(t, 4, c, digits) == Quad(t, 4, c, digits)
  {
  }

  lemma ReadsOnePadded(a: string, v0: Byte, v1: Byte, t: string, digits: seq<Byte>)
    requires |a| == 64 && IsAlphabet(a) && v0 < 64 && v1 < 64 && |digits| == 4
    requires Interleaved([a[v0 as nat]] + ([a[v1 as nat]] + "=="), t)
    ensures ReadQuad(t, 0, '\0', digits) == Quad("", 3, '=', digits[0 := v0][1 := v1])
  {
    hide Interleaved, IsAlphabet, ReadQuad;
    var rest, c := ReadsTwo(a, v0, v1, "==", t, digits);
    ReadsPadding("==", rest, 2, c, digits[0 := v0][1 := v1]);
  }

  lemma ReadsTwoPadded(a: string, v0: Byte, v1: Byte, v2: Byte, t: string, digits: seq<Byte>)
    requires |a| == 64 && IsAlphabet(a) && v0 < 64 && v1 < 64 && v2 < 64 && |digits| == 4
    requires Interleaved([a[v0 as nat]] + ([a[v1 as nat]] + ([a[v2 as nat]] + "=")), t)
    ensures ReadQuad(t, 0, '\0', digits) == Quad("", 4, '=', digits[0 := v0][1 := v1][2 := v2])
  {
    hide Interleaved, IsAlphabet, ReadQuad;
    var rest, c := ReadsTwo(a, v0, v1, [a[v2 as nat]] + "=", t, digits);
    var d := digits[0 := v0][1 := v1];
    rest, c := ReadsDigit(a, v2, "=", rest, 2, c, d);
    ReadsPadding("=", rest, 3, c, d[2 := v2]);
  }

  /** The sextets put together again are the bytes. */
  lemma SextetsJoin(t0: Byte, t1: Byte, t2: Byte)
    ensures ((Sextet0(t0) << 2) | (Sextet1(t0, t1) >> 4)) == t0
    ensures ((Sextet1(t0, t1) << 4) | (Sextet2(t1, t2) >> 2)) == t1
    ensures (((Sextet2(t1, t2) << 6) & 0xc0) | Sextet3(t2)) == t2
  {
  }

  lemma BytesJoin(t0: Byte, t1: Byte, t2: Byte, digits: seq<Byte>)
    requires |digits| == 4 && digits[0] == Sextet0(t0) && digits[1] == Sextet1(t0, t1)
    ensures QuadBytes(digits, 2) == [t0]
    ensures digits[2] == Sextet2(t1, t2) ==> QuadBytes(digits, 3) == [t0, t1]
    ensures digits[2] == Sextet2(t1, t2) && digits[3] == Sextet3(t2) ==> QuadBytes(digits, 4) == [t0, t1, t2]
  {
    SextetsJoin(t0, t1, t2);
    hide Sextet0, Sextet1, Sextet2, Sextet3;
  }

  lemma ThreeDecode(a: string, s: seq<Byte>, e: string, t: string, digits: seq<Byte>)
    requires |a| == 64 && IsAlphabet(a) && |digits| == 4 && |s| == 3 && Interleaved(Group(a, s) + e, t)
    ensures var g := ReadQuad(t, 0, '\0', digits);
            g.len == 4 && QuadLength(g) == 4 && QuadBytes(g.digits, 4) == s && Interleaved(e, g.rest)
  {
    hide Interleaved, IsAlphabet, ReadQuad, QuadBytes, Sextet0, Sextet1, Sextet2, Sextet3;
    var v0, v1, v2, v3 := Sextet0(s[0]), Sextet1(s[0], s[1]), Sextet2(s[1], s[2]), Sextet3(s[2]);
    assert Group(a, s) + e == [a[v0 as nat]] + ([a[v1 as nat]] + ([a[v2 as nat]] + ([a[v3 as nat]] + e)));
    ReadsFour(a, v0, v1, v2, v3, e, t, digits);
    BytesJoin(s[0], s[1], s[2], ReadQuad(t, 0, '\0', digits).digits);
  }

  lemma TwoDecode(a: string, s: seq<Byte>, t: string, digits: seq<Byte>)
    requires |a| == 64 && IsAlphabet(a) && |digits| == 4 && |s| == 2 && Interleaved(Group(a, s), t)
    ensures var g := ReadQuad(t, 0, '\0', digits);
            g.len == 4 && QuadLength(g) == 3 && QuadBytes(g.digits, 3) == s && g.rest == ""
  {
    hide Interleaved, IsAlphabet, ReadQuad, QuadBytes, Sextet0, Sextet1, Sextet2, Sextet3;
    var v0, v1, v2 := Sextet0(s[0]), Sextet1(s[0], s[1]), Sextet2(s[1], 0);
    assert Group(a, s) == [a[v0 as nat]] + ([a[v1 as nat]] + ([a[v2 as nat]] + "="));
    ReadsTwoPadded(a, v0, v1, v2, t, digits);
    BytesJoin(s[0], s[1], 0, ReadQuad(t, 0, '\0', digits).digits);
  }

  lemma OneDecodes(a: string, s: seq<Byte>, t: string, digits: seq<Byte>)
    requires |a| == 64 && IsAlphabet(a) && |digits| == 4 && |s| == 1 && Interleaved(Group(a, s), t)
    ensures var g := ReadQuad(t, 0, '\0', digits);
            g.len == 3 && QuadLength(g) == 2 && QuadBytes(g.digits, 2) == s && g.rest == ""
  {
    hide Interleaved, IsAlphabet, ReadQuad, QuadBytes, Sextet0, Sextet1, Sextet2, Sextet3;
    var v0, v1 := Sextet0(s[0]), Sextet1(s[0], 0);
    assert Group(a, s) == [a[v0 as nat]] + ([a[v1 as nat]] + "==");
    ReadsOnePadded(a, v0, v1, t, digits);
    BytesJoin(s[0], 0, 0, ReadQuad(t, 0, '\0', digits).digits);
  }

  /** A group decodes to its bytes, whatever the quad held before. */
  lemma GroupDecodes(a: string, s: seq<Byte>, e: string, t: string, digits: seq<Byte>)
    requires |a| == 64 && IsAlphabet(a) && |digits| == 4 && 1 <= |s| <= 3 && (|s| < 3 ==> e == "")
    requires Interleaved(Group(a, s) + e, t)
    ensures var g := ReadQuad(t, 0, '\0', digits);
            && |s| + 1 <= g.len <= |s| + 2 && (|s| == 3 ==> g.len == 4)
            && QuadLength(g) == |s| + 1 && QuadBytes(g.digits, |s| + 1) == s && Interleaved(e, g.rest)
  {
    hide Group, ReadQuad, QuadBytes, QuadLength, IsAlphabet;
    assert e == "" ==> Group(a, s) + e == Group(a, s);
    if |s| == 3 {
      ThreeDecode(a, s, e, t, digits);
    } else if |s| == 2 {
      TwoDecode(a, s, t, digits);
    } else {
      OneDecodes(a, s, t, digits);
    }
  }

  /**
   * Decoding gives the bytes back if there is room for them, the terminator and one byte more;
   * characters of neither alphabet in front of any character do not matter.
   */
  lemma {:induction false} DecodeInterleaved(a: string, s: seq<Byte>, t: string, digits: seq<Byte>, done: int,
                                             outSize: int)
    requires |a| == 64 && IsAlphabet(a) && |digits| == 4 && Interleaved(Encode(a, s), t)
    ensures Decode(t, digits, done, outSize) == if done + |s| + 1 < outSize then Answer(done + |s|, s) else TooSmall
    decreases |s|
  {
    hide Interleaved, IsAlphabet, ReadQuad, QuadBytes, Group, QuadLength;
    if s == [] {
      NothingLeft(t);
    } else {
      var n := FirstThree(s);
      var e := Encode(a, s[n..]);
      if t == "" {
        var k := FirstOf(Encode(a, s), t);
      }
      GroupDecodes(a, s[..n], e, t, digits);
      var g := ReadQuad(t, 0, '\0', digits);
      DecodeInterleaved(a, s[n..], g.rest, g.digits, done + n, outSize);
      assert s == s[..n] + s[n..];
    }
  }

  lemma {:induction false} InterleavedItself(e: string)
    ensures Interleaved(e, e)
  {
    if e != "" {
      InterleavedItself(e[1..]);
      assert Junk(e[..0]);
    }
  }

  lemma Base64RoundTrip(a: string, s: seq<Byte>, digits: seq<Byte>, outSize: int)
    requires IsAlphabet(a) && |a| == 64 && |digits| == 4 && |s| + 2 <= outSize
    ensures Decode(Encode(a, s), digits, 0, outSize) == Answer(|s|, s)
  {
    InterleavedItself(Encode(a, s));
    DecodeInterleaved(a, s, Encode(a, s), digits, 0, outSize);
  }

  // ---- what the quad held at first ----

  /** The number of characters that have a value. */
  function Valued(t: string): nat {
    if t == "" then 0 else (if Value(t[0]) != 0 then 1 else 0) + Valued(t[1..])
  }

  /** The text ends in a character of no value that is not padding. */
  predicate EndsInJunk(t: string) {
    t != "" && Value(t[|t| - 1]) == 0 && t[|t| - 1] != '='
  }

  predicate Agree(a: seq<Byte>, b: seq<Byte>, k: nat) {
    |a| == 4 && |b| == 4 && k <= 4 && forall i :: 0 <= i < k ==> a[i] == b[i]
  }

  /** The last character of a text decides what the last scan of it found. */
  lemma {:induction false} SkipLast(t: string)
    requires t != ""
    ensures Skip(t).v == 0 ==> Skip(t).rest == "" && Value(t[|t| - 1]) == 0 && Skip(t).c == Canonical(t[|t| - 1])
    ensures Skip(t).v != 0 && Skip(t).rest == "" ==> Value(t[|t| - 1]) != 0 && Skip(t).c == Canonical(t[|t| - 1])
    ensures Skip(t).rest != "" ==> Skip(t).rest[|Skip(t).rest| - 1] == t[|t| - 1]
    ensures Valued(t) == (if Skip(t).v != 0 then 1 else 0) + Valued(Skip(t).rest)
  {
    if Value(t[0]) == 0 && |t| > 1 {
      SkipLast(t[1..]);
    }
  }

  lemma PutAgrees(a: seq<Byte>, b: seq<Byte>, i: nat, v: int)
    requires Agree(a, b, i) && i < 4 && 0 <= v <= 64
    ensures Agree(Put(a, i, v), Put(b, i, v), if v != 0 then i + 1 else i)
  {
  }

  lemma ReadStep(t: string, i: nat, c: char, digits: seq<Byte>)
    requires t != "" && i < 4 && |digits| == 4
    ensures var s := Skip(t);
            && ReadQuad(t, i, c, digits) == ReadQuad(s.rest, i + 1, s.c, Put(digits, i, s.v))
            && (i == 3 || s.rest == "" ==> ReadQuad(t, i, c, digits) == Quad(s.rest, i + 1, s.c, Put(digits, i, s.v)))
  {
    hide Put, Skip;
  }

  /** Reading a group from two different quads: only a digit that was never read keeps the difference. */
  lemma {:induction false} ReadTwice(t: string, i: nat, c: char, a: seq<Byte>, b: seq<Byte>)
    requires t != "" && i < 4 && |a| == 4 && |b| == 4 && Agree(a, b, i)
    ensures var g, h := ReadQuad(t, i, c, a), ReadQuad(t, i, c, b);
            && g.rest == h.rest && g.len == h.len && g.c == h.c && i < g.len
            && Agree(g.digits, h.digits, if g.rest == "" && Value(t[|t| - 1]) == 0 then g.len - 1 else g.len)
            && (g.rest == "" ==> g.c == Canonical(t[|t| - 1])) && (g.rest != "" ==> g.len == 4)
    decreases 4 - i
  {
    hide Skip, Value, Canonical, Valued, Put, ReadQuad, Agree;
    SkipLast(t);
    var s := Skip(t);
    ReadStep(t, i, c, a);
    ReadStep(t, i, c, b);
    PutAgrees(a, b, i, s.v);
    if i < 3 && s.rest != "" {
      ReadTwice(s.rest, i + 1, s.c, Put(a, i, s.v), Put(b, i, s.v));
    }
  }

  /** A text that ends in junk ends within a group of `i` digits and more exactly when it has too few others. */
  lemma {:induction false} ReadJunk(t: string, i: nat, c: char, digits: seq<Byte>)
    requires EndsInJunk(t) && i < 4 && |digits| == 4
    ensures var g := ReadQuad(t, i, c, digits);
            && (g.rest == "" <==> i + Valued(t) <= 3)
            && (g.rest == "" ==> g.len == i + Valued(t) + 1 && g.digits[g.len - 1] == digits[g.len - 1])
    decreases 4 - i
  {
    hide Skip, Value, Canonical, ReadQuad;
    SkipLast(t);
    var s := Skip(t);
    ReadStep(t, i, c, digits);
    if i < 3 && s.rest != "" {
      ReadJunk(s.rest, i + 1, s.c, Put(digits, i, s.v));
    }
  }

  /** Too few digits for a group, then junk: a byte is made of a digit that was never read. */
  predicate UsesUnreadDigit(t: string, outSize: int) {
    EndsInJunk(t) && 1 <= Valued(t) <= 3 && Valued(t) + 1 < outSize
  }

  lemma SameBytes(a: seq<Byte>, b: seq<Byte>, k: nat)
    requires |a| == 4 && |b| == 4 && (k >= 2 ==> Agree(a, b, k))
    ensures QuadBytes(a, k) == QuadBytes(b, k)
  {
  }

  lemma OtherBytes(a: seq<Byte>, b: seq<Byte>, k: nat)
    requires 2 <= k <= 4 && |a| == 4 && |b| == 4 && a[k - 1] == 0 && b[k - 1] == 0xff
    ensures QuadBytes(a, k) != QuadBytes(b, k)
  {
    var i := k - 2;
    assert QuadBytes(a, k)[i] != QuadBytes(b, k)[i] by {
      FirstByteDiffers(a[0], b[0]);
      SecondByteDiffers(a[1], b[1]);
      ThirdByteDiffers(a[2], b[2]);
    }
  }

  lemma FirstByteDiffers(x: Byte, y: Byte)
    ensures (x << 2) | (0 >> 4) != (y << 2) | (0xff >> 4)
  {
  }

  lemma SecondByteDiffers(x: Byte, y: Byte)
    ensures (x << 4) | (0 >> 2) != (y << 4) | (0xff >> 2)
  {
  }

  lemma ThirdByteDiffers(x: Byte, y: Byte)
    ensures ((x << 6) & 0xc0) | 0 != ((y << 6) & 0xc0) | 0xff
  {
  }

  /** The answer for a text that ends within its first group. */
  lemma DecodeShort(t: string, digits: seq<Byte>, outSize: int)
    requires |digits| == 4 && t != "" && ReadQuad(t, 0, '\0', digits).rest == ""
    ensures var g := ReadQuad(t, 0, '\0', digits);
            Decode(t, digits, 0, outSize)
              == if outSize < g.len - 1 || QuadLength(g) >= outSize then TooSmall
                 else Answer(QuadLength(g) - 1, QuadBytes(g.digits, QuadLength(g)))
  {
    hide ReadQuad, QuadBytes, QuadLength;
    var g := ReadQuad(t, 0, '\0', digits);
    assert QuadBytes(g.digits, QuadLength(g)) + [] == QuadBytes(g.digits, QuadLength(g));
  }

  lemma ValuedIsNoPadding(c: char)
    requires Value(c) != 0
    ensures Canonical(c) != '='
  {
  }

  lemma ShortDoesNotMatter(t: string, a: seq<Byte>, b: seq<Byte>, outSize: int)
    requires |a| == 4 && |b| == 4 && !UsesUnreadDigit(t, outSize)
    requires t != "" && ReadQuad(t, 0, '\0', a).rest == ""
    ensures Decode(t, a, 0, outSize) == Decode(t, b, 0, outSize)
  {
    hide Value, Valued, ReadQuad, QuadBytes, Canonical, Decode, Agree;
    AgreeOnAll(a, b);
    ReadTwice(t, 0, '\0', a, b);
    var g, h := ReadQuad(t, 0, '\0', a), ReadQuad(t, 0, '\0', b);
    DecodeShort(t, a, outSize);
    DecodeShort(t, b, outSize);
    if EndsInJunk(t) {
      ReadJunk(t, 0, '\0', a);
      JunkIsNoPadding(t[|t| - 1]);
      if Valued(t) == 0 {
        SameBytes(g.digits, h.digits, 1);
      }
    } else {
      if Value(t[|t| - 1]) != 0 {
        ValuedIsNoPadding(t[|t| - 1]);
      } else {
        PaddingIsPadding();
      }
      SameBytes(g.digits, h.digits, QuadLength(g));
    }
  }

  lemma PaddingIsPadding()
    ensures Canonical('=') == '='
  {
  }

  lemma AgreeOnAll(a: seq<Byte>, b: seq<Byte>)
    requires |a| == 4 && |b| == 4
    ensures Agree(a, b, 0) && (Agree(a, b, 4) ==> a == b)
  {
  }

  lemma QuadDoesNotMatter(t: string, a: seq<Byte>, b: seq<Byte>, outSize: int)
    requires |a| == 4 && |b| == 4 && !UsesUnreadDigit(t, outSize)
    ensures Decode(t, a, 0, outSize) == Decode(t, b, 0, outSize)
  {
    hide Value, Valued, ReadQuad, QuadBytes, Canonical, Agree, UsesUnreadDigit;
    if t != "" {
      AgreeOnAll(a, b);
      ReadTwice(t, 0, '\0', a, b);
      if ReadQuad(t, 0, '\0', a).rest == "" {
        ShortDoesNotMatter(t, a, b, outSize);
      } else {
        AgreeOnAll(ReadQuad(t, 0, '\0', a).digits, ReadQuad(t, 0, '\0', b).digits);
      }
    }
  }

  lemma QuadMatters(t: string, outSize: int)
    requires UsesUnreadDigit(t, outSize)
    ensures Decode(t, [0, 0, 0, 0], 0, outSize) != Decode(t, [0xff, 0xff, 0xff, 0xff], 0, outSize)
  {
    hide Value, Valued, ReadQuad, QuadBytes;
    var a: seq<Byte>, b: seq<Byte> := [0, 0, 0, 0], [0xff, 0xff, 0xff, 0xff];
    ReadJunk(t, 0, '\0', a);
    ReadJunk(t, 0, '\0', b);
    DecodeShort(t, a, outSize);
    DecodeShort(t, b, outSize);
    var g, h := ReadQuad(t, 0, '\0', a), ReadQuad(t, 0, '\0', b);
    ReadTwice(t, 0, '\0', a, b);
    JunkIsNoPadding(t[|t| - 1]);
    OtherBytes(g.digits, h.digits, g.len);
  }

  lemma JunkIsNoPadding(c: char)
    requires c != '='
    ensures Canonical(c) != '='
  {
  }

  /** The output is a function of the text exactly for the texts that do not use an unread digit. */
  lemma OutputIsDetermined(t: string, outSize: int)
    ensures (forall a: seq<Byte>, b: seq<Byte> ::
               |a| == 4 && |b| == 4 ==> Decode(t, a, 0, outSize) == Decode(t, b, 0, outSize))
       <==> !UsesUnreadDigit(t, outSize)
  {
    hide Decode, UsesUnreadDigit;
    if UsesUnreadDigit(t, outSize) {
      QuadMatters(t, outSize);
    } else {
      forall a: seq<Byte>, b: seq<Byte> | |a| == 4 && |b| == 4
        ensures Decode(t, a, 0, outSize) == Decode(t, b, 0, outSize)
      {
        QuadDoesNotMatter(t, a, b, outSize);
      }
    }
  }

  /** Encodings, and what is left of one that was cut anywhere, never use an unread digit. */
  lemma {:induction false} EncodedCharacters(a: string, s: seq<Byte>)
    requires |a| == 64 && IsAlphabet(a)
    ensures forall i :: 0 <= i < |Encode(a, s)| ==> Value(Encode(a, s)[i]) != 0 || Encode(a, s)[i] == '='
  {
    if s != [] {
      EncodedCharacters(a, s[FirstThree(s)..]);
      GroupCharacters(a, s[..FirstThree(s)]);
      hide Value, Group;
    }
  }

  lemma GroupCharacters(a: string, s: seq<Byte>)
    requires |a| == 64 && IsAlphabet(a) && 1 <= |s| <= 3
    ensures forall i :: 0 <= i < 4 ==> Value(Group(a, s)[i]) != 0 || Group(a, s)[i] == '='
  {
    hide Value, IsAlphabet, Four;
    FourCharacters(a, s[0], if |s| > 1 then s[1] else 0, if |s| > 2 then s[2] else 0, |s|);
  }

  lemma FourCharacters(a: string, t0: Byte, t1: Byte, t2: Byte, len: nat)
    requires |a| == 64 && IsAlphabet(a)
    ensures forall i :: 0 <= i < 4 ==> Value(Four(a, t0, t1, t2, len)[i]) != 0 || Four(a, t0, t1, t2, len)[i] == '='
  {
    hide Value, IsAlphabet, Sextet0, Sextet1, Sextet2, Sextet3;
    AlphabetValue(a, Sextet0(t0) as nat);
    AlphabetValue(a, Sextet1(t0, t1) as nat);
    AlphabetValue(a, Sextet2(t1, t2) as nat);
    AlphabetValue(a, Sextet3(t2) as nat);
  }

  lemma CutEncodingsAreDetermined(a: string, s: seq<Byte>, k: nat, outSize: int)
    requires |a| == 64 && IsAlphabet(a) && k <= |Encode(a, s)|
    ensures !UsesUnreadDigit(Encode(a, s)[..k], outSize)
  {
    EncodedCharacters(a, s);
    hide Value, Encode;
  }

  // ---- the count ----

  /** Padding at the end, where no group is to be padded. */
  predicate NeedlessPadding(t: string) {
    t != "" && t[|t| - 1] == '=' && Valued(t) % 4 == 0
  }

  /** How many characters of value a group takes. */
  lemma {:induction false} ReadValued(t: string, i: nat, c: char, digits: seq<Byte>)
    requires t != "" && i < 4 && |digits| == 4
    ensures var g := ReadQuad(t, i, c, digits);
            && i < g.len
            && (g.rest != "" ==>
                  g.len == 4 && Valued(t) == 4 - i + Valued(g.rest) && g.rest[|g.rest| - 1] == t[|t| - 1])
            && (g.rest == "" ==>
                  && g.c == Canonical(t[|t| - 1])
                  && Valued(t) == g.len - i - (if Value(t[|t| - 1]) == 0 then 1 else 0))
    decreases 4 - i
  {
    hide Skip, Value, Canonical, ReadQuad, Put;
    SkipLast(t);
    var s := Skip(t);
    ReadStep(t, i, c, digits);
    if i < 3 && s.rest != "" {
      ReadValued(s.rest, i + 1, s.c, Put(digits, i, s.v));
    }
  }

  lemma OnlyPaddingIsPadding(c: char)
    ensures Canonical(c) == '=' <==> c == '='
    ensures c == '=' ==> Value(c) == 0
  {
  }

  /** Needless padding shows in the last group only, which then has no length. */
  lemma PaddingOfGroup(t: string, digits: seq<Byte>)
    requires t != "" && |digits| == 4
    ensures var g := ReadQuad(t, 0, '\0', digits);
            && (g.rest != "" ==> QuadLength(g) == 4 && (NeedlessPadding(t) <==> NeedlessPadding(g.rest)))
            && (g.rest == "" ==> (NeedlessPadding(t) <==> QuadLength(g) == 0))
  {
    hide Value, Valued, ReadQuad, Canonical;
    ReadValued(t, 0, '\0', digits);
    OnlyPaddingIsPadding(t[|t| - 1]);
  }

  lemma BehindLength(bytes: seq<Byte>, r: Answer)
    requires Behind(bytes, r).Answer?
    ensures r.Answer? && Behind(bytes, r).count == r.count && |Behind(bytes, r).bytes| == |bytes| + |r.bytes|
  {
  }

  /** Between a text and what is left of it behind a group. */
  lemma CountStep(t: string, digits: seq<Byte>, done: int, outSize: int, g: Quad)
    requires t != "" && |digits| == 4 && g == ReadQuad(t, 0, '\0', digits) && Decode(t, digits, done, outSize).Answer?
    ensures var r := Decode(g.rest, g.digits, done + QuadLength(g) - 1, outSize);
            && r.Answer? && Decode(t, digits, done, outSize).count == r.count
            && |Decode(t, digits, done, outSize).bytes| == |QuadBytes(g.digits, QuadLength(g))| + |r.bytes|
  {
    hide ReadQuad, QuadLength, QuadBytes, Decode, Behind;
    DecodeEnd(t, digits, done, outSize, []);
    DecodeStep(t, digits, done, outSize, []);
    BehindLength([], Decode(t, digits, done, outSize));
    BehindLength([] + QuadBytes(g.digits, QuadLength(g)), Decode(g.rest, g.digits, done + QuadLength(g) - 1, outSize));
  }

  lemma CountAtEnd(digits: seq<Byte>, done: int, outSize: int)
    requires |digits| == 4 && Decode("", digits, done, outSize).Answer?
    ensures Decode("", digits, done, outSize) == Answer(done, [])
  {
  }

  lemma QuadBytesLength(digits: seq<Byte>, len: nat)
    requires |digits| == 4 && len <= 4
    ensures |QuadBytes(digits, len)| == if len <= 1 then 0 else len - 1
  {
  }

  /** The count is the number of bytes, or one less for needless padding. */
  lemma {:induction false} CountIs(t: string, digits: seq<Byte>, done: int, outSize: int)
    requires |digits| == 4 && Decode(t, digits, done, outSize).Answer?
    ensures var answer := Decode(t, digits, done, outSize);
            answer.count == done + |answer.bytes| - (if NeedlessPadding(t) then 1 else 0)
    decreases |t|
  {
    hide ReadQuad, QuadLength, QuadBytes, Decode;
    if t == "" {
      CountAtEnd(digits, done, outSize);
    } else {
      hide NeedlessPadding;
      var g := ReadQuad(t, 0, '\0', digits);
      PaddingOfGroup(t, digits);
      CountStep(t, digits, done, outSize, g);
      QuadBytesLength(g.digits, QuadLength(g));
      if g.rest != "" {
        CountIs(g.rest, g.digits, done + QuadLength(g) - 1, outSize);
      } else {
        CountAtEnd(g.digits, done + QuadLength(g) - 1, outSize);
      }
    }
  }

  /** The answer is the number of bytes that were written, exactly without needless padding. */
  lemma CountIsLength(t: string, digits: seq<Byte>, outSize: int)
    requires |digits| == 4 && Decode(t, digits, 0, outSize).Answer?
    ensures var answer := Decode(t, digits, 0, outSize);
            && (answer.count == |answer.bytes| <==> !NeedlessPadding(t))
            && (NeedlessPadding(t) ==> answer.count == |answer.bytes| - 1)
  {
    hide Decode, NeedlessPadding;
    CountIs(t, digits, 0, outSize);
  }

  /** A padding character alone is answered like a buffer that is too small. */
  lemma OnlyPadding(digits: seq<Byte>, outSize: int)
    requires |digits| == 4 && outSize > 0
    ensures Decode("=", digits, 0, outSize) == Answer(-1, [])
  {
    assert Skip("=") == Scan("", '=', 0);
  }

  // ---- the alphabets and the encoding, character by character ----

  lemma Alphabets(v: nat)
    requires v < 64
    ensures |ENCODE_ORIG| == 64 && |ENCODE_URL| == 64
    ensures v < 26 ==> ENCODE_ORIG[v] as int == 65 + v && ENCODE_URL[v] as int == 65 + v
    ensures 26 <= v < 52 ==> ENCODE_ORIG[v] as int == 71 + v && ENCODE_URL[v] as int == 71 + v
    ensures 52 <= v < 62 ==> ENCODE_ORIG[v] as int == v - 4 && ENCODE_URL[v] as int == v - 4
    ensures ENCODE_ORIG[62] == '+' && ENCODE_ORIG[63] == '/' && ENCODE_URL[62] == '-' && ENCODE_URL[63] == '_'
  {
  }

  /** The value of a character, one more than its place in the alphabets; no other character has any. */
  lemma ValueWhen(c: char)
    ensures 'A' <= c <= 'Z' ==> Value(c) == c as int - 64
    ensures 'a' <= c <= 'z' ==> Value(c) == c as int - 70
    ensures '0' <= c <= '9' ==> Value(c) == c as int + 5
    ensures c == '+' || c == '-' ==> Value(c) == 63
    ensures c == '/' || c == '_' ==> Value(c) == 64
    ensures Value(c) != 0 ==>
              'A' <= c <= 'Z' || 'a' <= c <= 'z' || '0' <= c <= '9' || c == '+' || c == '-' || c == '/' || c == '_'
  {
  }

  /** Three bytes are four characters; two are three and a padding character, one is two and two padding characters. */
  lemma EncodedShape(a: string, s: seq<Byte>)
    requires |a| == 64
    ensures s == [] ==> Encode(a, s) == ""
    ensures |s| == 1 ==> Encode(a, s) == [a[Sextet0(s[0]) as nat], a[Sextet1(s[0], 0) as nat], '=', '=']
    ensures |s| == 2 ==>
              Encode(a, s)
              == [a[Sextet0(s[0]) as nat], a[Sextet1(s[0], s[1]) as nat], a[Sextet2(s[1], 0) as nat], '=']
    ensures |s| >= 3 ==>
              Encode(a, s)
              == [a[Sextet0(s[0]) as nat], a[Sextet1(s[0], s[1]) as nat], a[Sextet2(s[1], s[2]) as nat],
                  a[Sextet3(s[2]) as nat]] + Encode(a, s[3..])
  {
    hide Sextet0, Sextet1, Sextet2, Sextet3;
    if |s| == 1 || |s| == 2 {
      assert s[..|s|] == s && s[|s|..] == [] && Encode(a, []) == "";
    }
  }

  // ---- the decoding of any text ----

  /** The values of the characters that have one. */
  function ValuesOf(t: string): (vs: seq<Byte>)
    ensures |vs| == Valued(t)
  {
    if t == "" then [] else (if Value(t[0]) != 0 then [(Value(t[0]) - 1) as Byte] else []) + ValuesOf(t[1..])
  }

  /** Four values are three bytes; of the values at the end, three are two bytes, two are one, and one is none. */
  function FromValues(vs: seq<Byte>): seq<Byte> {
    if |vs| >= 4 then
      [(vs[0] << 2) | (vs[1] >> 4), (vs[1] << 4) | (vs[2] >> 2), ((vs[2] << 6) & 0xc0) | vs[3]] + FromValues(vs[4..])
    else if |vs| == 3 then [(vs[0] << 2) | (vs[1] >> 4), (vs[1] << 4) | (vs[2] >> 2)]
    else if |vs| == 2 then [(vs[0] << 2) | (vs[1] >> 4)]
    else []
  }

  /** The value that a scan found, if any. */
  function Found(v: int): (r: seq<Byte>)
    requires 0 <= v <= 64
    ensures |r| == if v != 0 then 1 else 0
  {
    if v != 0 then [(v - 1) as Byte] else []
  }

  lemma {:induction false} SkipValues(t: string)
    requires t != ""
    ensures ValuesOf(t) == Found(Skip(t).v) + ValuesOf(Skip(t).rest)
  {
    if Value(t[0]) == 0 && |t| > 1 {
      SkipValues(t[1..]);
    }
  }

  lemma PutIs(digits: seq<Byte>, i: nat, v: int)
    requires |digits| == 4 && i < 4 && 0 <= v <= 64
    ensures Put(digits, i, v)[..i + |Found(v)|] == digits[..i] + Found(v)
  {
  }

  lemma NothingOf()
    ensures ValuesOf("") == [] && Valued("") == 0
  {
  }

  /** The digits of a group are the values that were read. */
  lemma {:induction false} ReadValues(t: string, i: nat, c: char, digits: seq<Byte>)
    requires t != "" && i < 4 && |digits| == 4
    ensures var g := ReadQuad(t, i, c, digits);
            && (g.rest != "" ==> g.digits + ValuesOf(g.rest) == digits[..i] + ValuesOf(t))
            && (g.rest == "" ==> i + |ValuesOf(t)| <= 4 && g.digits[..i + |ValuesOf(t)|] == digits[..i] + ValuesOf(t))
    decreases 4 - i
  {
    hide Skip, Value, ReadQuad, Put, ValuesOf, Valued, Found;
    SkipLast(t);
    SkipValues(t);
    ReadStep(t, i, c, digits);
    var s := Skip(t);
    var next := Put(digits, i, s.v);
    PutIs(digits, i, s.v);
    if s.rest == "" {
      NothingOf();
    } else if i < 3 {
      ReadValues(s.rest, i + 1, s.c, next);
      assert digits[..i] + Found(s.v) + ValuesOf(s.rest) == digits[..i] + ValuesOf(t);
    } else {
      assert next[..4] == next;
      assert digits[..i] + Found(s.v) + ValuesOf(s.rest) == digits[..i] + ValuesOf(t);
    }
  }

  lemma QuadIsFromValues(digits: seq<Byte>, m: nat)
    requires |digits| == 4 && m <= 4
    ensures QuadBytes(digits, m) == FromValues(digits[..m])
    ensures QuadBytes(digits, m) == if m >= 2 then FromValues(digits[..m]) else []
  {
  }

  lemma FromFour(digits: seq<Byte>, more: seq<Byte>)
    requires |digits| == 4
    ensures FromValues(digits + more) == QuadBytes(digits, 4) + FromValues(more)
  {
    assert (digits + more)[4..] == more;
  }

  /** A text ends properly unless a byte is begun and then cut off by junk. */
  predicate EndsProperly(t: string) {
    !(EndsInJunk(t) && Valued(t) % 4 != 0)
  }

  /** How the last group is measured. */
  lemma LastGroup(t: string, digits: seq<Byte>)
    requires t != "" && |digits| == 4 && EndsProperly(t) && ReadQuad(t, 0, '\0', digits).rest == ""
    ensures var g, m := ReadQuad(t, 0, '\0', digits), Valued(t);
            && m <= 4 && m <= g.len <= m + 1
            && (QuadLength(g) == m || (m == 0 && QuadLength(g) == 1))
            && (NeedlessPadding(t) <==> QuadLength(g) == 0)
            && g.len - 1 <= (if QuadLength(g) == 0 then 0 else QuadLength(g))
  {
    hide Value, Valued, ReadQuad, Canonical;
    ReadValued(t, 0, '\0', digits);
    OnlyPaddingIsPadding(t[|t| - 1]);
  }

  /** The answer for a count and bytes, if there is room for one byte more than the count and its terminator. */
  function Answered(count: int, bytes: seq<Byte>, outSize: int): Answer {
    if count + 1 >= outSize then TooSmall else Answer(count, bytes)
  }

  function CountOf(t: string, bytes: seq<Byte>): int {
    |bytes| - (if NeedlessPadding(t) then 1 else 0)
  }

  lemma DecodeLast(t: string, digits: seq<Byte>, done: int, outSize: int)
    requires t != "" && |digits| == 4 && EndsProperly(t) && ReadQuad(t, 0, '\0', digits).rest == ""
    ensures var bytes := FromValues(ValuesOf(t));
            Decode(t, digits, done, outSize) == Answered(done + CountOf(t, bytes), bytes, outSize)
  {
    hide Value, Valued, ReadQuad, QuadLength, QuadBytes, NeedlessPadding, FromValues, ValuesOf, EndsProperly;
    LastGroup(t, digits);
    ReadValues(t, 0, '\0', digits);
    var g, m := ReadQuad(t, 0, '\0', digits), Valued(t);
    assert digits[..0] + ValuesOf(t) == ValuesOf(t) && g.digits[..m] == ValuesOf(t);
    QuadIsFromValues(g.digits, m);
    QuadBytesLength(g.digits, m);
    QuadBytesLength(g.digits, QuadLength(g));
    assert QuadBytes(g.digits, QuadLength(g)) == FromValues(ValuesOf(t)) by {
      if m == 0 {
        QuadBytesLength(g.digits, 0);
      }
    }
    assert QuadBytes(g.digits, QuadLength(g)) + [] == QuadBytes(g.digits, QuadLength(g));
  }

  lemma ProperRest(t: string, digits: seq<Byte>)
    requires t != "" && |digits| == 4 && ReadQuad(t, 0, '\0', digits).rest != ""
    ensures var rest := ReadQuad(t, 0, '\0', digits).rest;
            && |rest| < |t| && (EndsProperly(t) <==> EndsProperly(rest))
            && (NeedlessPadding(t) <==> NeedlessPadding(rest))
    ensures ReadQuad(t, 0, '\0', digits).len == 4 && QuadLength(ReadQuad(t, 0, '\0', digits)) == 4
  {
    hide Value, Valued, ReadQuad;
    ReadValued(t, 0, '\0', digits);
  }

  lemma DecodeNone(digits: seq<Byte>, done: int, outSize: int)
    requires |digits| == 4
    ensures FromValues(ValuesOf("")) == [] && CountOf("", []) == 0
    ensures Decode("", digits, done, outSize) == Answered(done, [], outSize)
  {
  }

  /** One group of four and what follows. */
  lemma DecodeMore(t: string, digits: seq<Byte>, done: int, outSize: int, g: Quad)
    requires t != "" && |digits| == 4 && EndsProperly(t) && g == ReadQuad(t, 0, '\0', digits) && g.rest != ""
    requires var bytes := FromValues(ValuesOf(g.rest));
             Decode(g.rest, g.digits, done + 3, outSize) == Answered(done + 3 + CountOf(g.rest, bytes), bytes, outSize)
    ensures var bytes := FromValues(ValuesOf(t));
            Decode(t, digits, done, outSize) == Answered(done + CountOf(t, bytes), bytes, outSize)
  {
    hide Valued, ReadQuad, QuadLength, QuadBytes, NeedlessPadding, FromValues, ValuesOf, EndsProperly;
    ProperRest(t, digits);
    ReadValues(t, 0, '\0', digits);
    assert digits[..0] + ValuesOf(t) == ValuesOf(t);
    FromFour(g.digits, ValuesOf(g.rest));
    QuadBytesLength(g.digits, 4);
  }

  /** Every text that ends properly decodes to the bytes of its values, whatever lies between them. */
  lemma {:induction false} DecodeFrom(t: string, digits: seq<Byte>, done: int, outSize: int)
    requires |digits| == 4 && EndsProperly(t)
    ensures var bytes := FromValues(ValuesOf(t));
            Decode(t, digits, done, outSize) == Answered(done + CountOf(t, bytes), bytes, outSize)
    decreases |t|
  {
    hide Valued, ReadQuad, QuadLength, QuadBytes, NeedlessPadding, FromValues, ValuesOf, EndsProperly, Decode, CountOf;
    if t == "" {
      DecodeNone(digits, done, outSize);
    } else if ReadQuad(t, 0, '\0', digits).rest == "" {
      DecodeLast(t, digits, done, outSize);
    } else {
      var g := ReadQuad(t, 0, '\0', digits);
      ProperRest(t, digits);
      DecodeFrom(g.rest, g.digits, done + 3, outSize);
      DecodeMore(t, digits, done, outSize, g);
    }
  }

  /** What the decoder does with any text that ends properly. */
  lemma DecodeWhen(t: string, digits: seq<Byte>, outSize: int)
    requires |digits| == 4 && !(EndsInJunk(t) && Valued(t) % 4 != 0)
    ensures var bytes := FromValues(ValuesOf(t));
            var count := |bytes| - (if NeedlessPadding(t) then 1 else 0);
            Decode(t, digits, 0, outSize) == if count + 1 >= outSize then TooSmall else Answer(count, bytes)
  {
    hide Decode, FromValues, ValuesOf, NeedlessPadding, EndsInJunk, Valued;
    DecodeFrom(t, digits, 0, outSize);
  }

  /** An encoding without its padding, or with anything else in between, decodes to the same bytes. */
  lemma SameValuesSameBytes(a: string, s: seq<Byte>, t: string, digits: seq<Byte>, outSize: int)
    requires IsAlphabet(a) && |a| == 64 && |digits| == 4 && EndsProperly(t)
    requires ValuesOf(t) == ValuesOf(Encode(a, s)) && Decode(t, digits, 0, outSize).Answer?
    ensures Decode(t, digits, 0, outSize).bytes == s
  {
    hide Decode, FromValues, ValuesOf, EndsInJunk, Valued, Encode, IsAlphabet;
    DecodeWhen(t, digits, outSize);
    EncodingEndsProperly(a, s);
    DecodeWhen(Encode(a, s), digits, |s| + 2);
    Base64RoundTrip(a, s, digits, |s| + 2);
  }

  lemma EncodingEndsProperly(a: string, s: seq<Byte>)
    requires IsAlphabet(a) && |a| == 64
    ensures EndsProperly(Encode(a, s))
  {
    EncodedCharacters(a, s);
    hide Value, Encode, Valued;
  }
}
