/** Percent-encoding of strings into a bounded buffer, and its inverse. */
module UrlCodec {
  import opened Common

  const HEX: seq<Byte> := [
    0x30, 0x31, 0x32, 0x33, 0x34, 0x35, 0x36, 0x37, 0x38, 0x39, 0x41, 0x42, 0x43, 0x44, 0x45, 0x46]

  const SPACE: Byte := 0x20
  const PERCENT: Byte := 0x25
  const PLUS: Byte := 0x2b

  /** The buffer holds this string and its terminator. */
  predicate IsString(buf: seq<Byte>, text: seq<Byte>) {
    |text| < |buf| && buf[..|text|] == text && buf[|text|] == 0 && 0 !in text
  }

  // ---- encoding ----

  predicate IsPlain(c: Byte) {
    (0x30 <= c <= 0x39) || (0x41 <= c <= 0x5a) || (0x61 <= c <= 0x7a)
  }

  function EncodeByte(c: Byte): (r: seq<Byte>)
    ensures |r| == if c == SPACE || IsPlain(c) then 1 else 3
  {
    if c == SPACE then [PLUS]
    else if IsPlain(c) then [c]
    else [PERCENT, HEX[((c >> 4) & 0xf) as nat], HEX[(c & 0xf) as nat]]
  }

  /** The encoding of a whole string. */
  function Encoded(text: seq<Byte>): seq<Byte> {
    if text == [] then [] else EncodeByte(text[0]) + Encoded(text[1..])
  }

  /** How many bytes of the string are encoded, and what is written, when so much room is left. */
  function Taken(text: seq<Byte>, len: int): (k: nat)
    ensures k <= |text|
  {
    if text == [] || len <= 3 then 0 else 1 + Taken(text[1..], len - |EncodeByte(text[0])|)
  }

  function Written(text: seq<Byte>, len: int): seq<Byte> {
    if text == [] || len <= 3 then [] else EncodeByte(text[0]) + Written(text[1..], len - |EncodeByte(text[0])|)
  }

  /** What is written is the encoding of a beginning of the string: no escape is ever cut. */
  lemma {:induction false} WrittenIsEncoded(text: seq<Byte>, len: int)
    ensures Written(text, len) == Encoded(text[..Taken(text, len)])
  {
    if text != [] && len > 3 {
      WrittenIsEncoded(text[1..], len - |EncodeByte(text[0])|);
      var k := Taken(text, len);
      assert text[..k][1..] == text[1..][..k - 1];
    }
  }

  /** There is always room for the terminator. */
  lemma {:induction false} WrittenFits(text: seq<Byte>, len: int)
    requires len >= 1
    ensures |Written(text, len)| < len
  {
    if text != [] && len > 3 {
      WrittenFits(text[1..], len - |EncodeByte(text[0])|);
    }
  }

  /** Encoding goes on exactly as long as three more bytes and the terminator would fit. */
  lemma {:induction false} TakenIs(text: seq<Byte>, len: int)
    ensures forall i :: 0 <= i < Taken(text, len) ==> |Encoded(text[..i])| + 3 < len
    ensures Taken(text, len) < |text| ==> |Encoded(text[..Taken(text, len)])| + 3 >= len
  {
    if text != [] && len > 3 {
      var first := |EncodeByte(text[0])|;
      TakenIs(text[1..], len - first);
      forall i | 0 < i <= |text|
        ensures |Encoded(text[..i])| == first + |Encoded(text[1..][..i - 1])|
      {
        assert text[..i][1..] == text[1..][..i - 1];
      }
    }
  }

  /** Writes one byte as a space, as it is, or as an escape. */
  method PutByte(escaped: array<Byte>, q: nat, c: Byte) returns (r: nat)
    requires q + |EncodeByte(c)| <= escaped.Length
    modifies escaped
    ensures r == q + |EncodeByte(c)|
    ensures escaped[..r] == old(escaped[..q]) + EncodeByte(c) && escaped[r..] == old(escaped[r..])
  {
    if c == SPACE {
      escaped[q] := PLUS;
      r := q + 1;
    } else if (0x30 <= c <= 0x39) || (0x41 <= c <= 0x5a) || (0x61 <= c <= 0x7a) {
      escaped[q] := c;
      r := q + 1;
    } else {
      escaped[q] := PERCENT;
      escaped[q + 1] := HEX[((c >> 4) & 0xf) as nat];
      escaped[q + 2] := HEX[(c & 0xf) as nat];
      r := q + 3;
    }
  }

  /** The encoding loop; it stops at the end of the string or when an escape might not fit. */
  method EncodeLoop(escaped: array<Byte>, str: array<Byte>, len: int, ghost text: seq<Byte>) returns (q: nat)
    requires escaped != str && IsString(str[..], text) && 1 <= len <= escaped.Length
    modifies escaped
    ensures q < len && escaped[..q] == Written(text, len) && escaped[q..] == old(escaped[q..])
  {
    hide EncodeByte, Written;
    var p: nat := 0;
    q := 0;
    var left := len;
    assert text[0..] == text;
    while str[p] != 0 && left > 3
      invariant p <= |text| && q + left == len && 1 <= left
      invariant escaped[..q] + Written(text[p..], left) == Written(text, len)
      invariant escaped[q..] == old(escaped[q..])
      decreases |text| - p
    {
      WrittenStep(text, p, left);
      assert text[p] == str[p];
      var r := PutByte(escaped, q, str[p]);
      left := left - (r - q);
      q := r;
      p := p + 1;
    }
    WrittenStops(text, p, left);
  }

  /** Writes the string encoded, and the terminator; of a long string only a beginning. */
  method UrlEncode(escaped: array<Byte>, str: array<Byte>, len: int, ghost text: seq<Byte>) returns (ghost end: nat)
    requires escaped != str && IsString(str[..], text) && 1 <= len <= escaped.Length
    modifies escaped
    ensures IsString(escaped[..], Encoded(text[..Taken(text, len)]))
    ensures end == |Encoded(text[..Taken(text, len)])| < len && escaped[end + 1..] == old(escaped[end + 1..])
  {
    var q := EncodeLoop(escaped, str, len, text);
    WrittenIsEncoded(text, len);
    EncodedHasNoNul(text[..Taken(text, len)]);
    hide Encoded, Taken, Written;
    ghost var goal := escaped[..q];
    escaped[q] := 0;
    end := q;
    assert escaped[..q] == goal;
  }

  lemma WrittenStep(text: seq<Byte>, p: nat, left: int)
    requires p < |text| && left > 3
    ensures Written(text[p..], left) == EncodeByte(text[p]) + Written(text[p + 1..], left - |EncodeByte(text[p])|)
    ensures 1 <= |EncodeByte(text[p])| <= 3
  {
    assert text[p..][1..] == text[p + 1..];
  }

  lemma WrittenStops(text: seq<Byte>, p: nat, left: int)
    requires p <= |text| && (p == |text| || left <= 3)
    ensures Written(text[p..], left) == []
  {
  }

  lemma ByteHasNoNul(c: Byte)
    requires c != 0
    ensures 0 !in EncodeByte(c)
  {
  }

  lemma {:induction false} EncodedHasNoNul(text: seq<Byte>)
    requires 0 !in text
    ensures 0 !in Encoded(text)
  {
    if text != [] {
      EncodedHasNoNul(text[1..]);
      ByteHasNoNul(text[0]);
    }
  }

  // ---- decoding ----

  /** The value of a hexadecimal digit in either case; no other character has one. */
  function CharToHex(c: Byte): Option<Byte> {
    if 0x30 <= c <= 0x39 then Some(c - 0x30)
    else if 0x61 <= c <= 0x66 then Some(c - 0x61 + 10)
    else if 0x41 <= c <= 0x46 then Some(c - 0x41 + 10)
    else None
  }

  /** Between characters, behind a percent sign, behind its first digit. */
  datatype State = Outside | First | Second(sum: Byte)

  /** What one character does: it is refused, or it leads on, with or without a byte written. */
  datatype Effect = Bad | Silent(next: State) | Emit(out: Byte, next: State)

  function DecodeOne(state: State, c: Byte): Effect {
    match state
    case Outside =>
      if c == PERCENT then Silent(First)
      else if c == PLUS then Emit(SPACE, Outside)
      else Emit(c, Outside)
    case First => (
      match CharToHex(c)
      case None => Bad
      case Some(n) => Silent(Second(n << 4))
    )
    case Second(sum) => (
      match CharToHex(c)
      case None => Bad
      case Some(n) => Emit(sum | n, Outside)
    )
  }

  function Decoded(escaped: seq<Byte>, len: nat, state: State): (r: Option<seq<Byte>>)
    ensures r.Some? ==> |r.value| <= len
    decreases |escaped|
  {
    if escaped == [] || len == 0 then Some([]) else
    match DecodeOne(state, escaped[0])
    case Bad => None
    case Silent(next) => Decoded(escaped[1..], len, next)
    case Emit(out, next) => Prepend(out, Decoded(escaped[1..], len - 1, next))
  }

  function Prepend(c: Byte, r: Option<seq<Byte>>): Option<seq<Byte>> {
    if r.None? then None else Some([c] + r.value)
  }

  lemma HexDigit(v: Byte)
    requires v < 16
    ensures CharToHex(HEX[v as nat]) == Some(v)
  {
  }

  lemma Nibbles(c: Byte)
    ensures (c >> 4) & 0xf < 16 && c & 0xf < 16
    ensures (((c >> 4) & 0xf) << 4) | (c & 0xf) == c
  {
  }

  lemma DecodesPercent(rest: seq<Byte>, len: nat)
    requires len > 0
    ensures Decoded([PERCENT] + rest, len, Outside) == Decoded(rest, len, First)
  {
    assert ([PERCENT] + rest)[1..] == rest;
  }

  lemma DecodesFirst(v: Byte, rest: seq<Byte>, len: nat)
    requires len > 0 && v < 16
    ensures Decoded([HEX[v as nat]] + rest, len, First) == Decoded(rest, len, Second(v << 4))
  {
    HexDigit(v);
    hide CharToHex, HEX;
    assert ([HEX[v as nat]] + rest)[1..] == rest;
  }

  lemma DecodesSecond(sum: Byte, v: Byte, rest: seq<Byte>, len: nat)
    requires len > 0 && v < 16
    ensures Decoded([HEX[v as nat]] + rest, len, Second(sum)) == Prepend(sum | v, Decoded(rest, len - 1, Outside))
  {
    HexDigit(v);
    hide CharToHex, HEX;
    assert ([HEX[v as nat]] + rest)[1..] == rest;
  }

  lemma DecodesDigits(hi: Byte, lo: Byte, rest: seq<Byte>, len: nat)
    requires len > 0 && hi < 16 && lo < 16
    ensures Decoded([PERCENT, HEX[hi as nat], HEX[lo as nat]] + rest, len, Outside)
         == Prepend((hi << 4) | lo, Decoded(rest, len - 1, Outside))
  {
    var a, b := HEX[hi as nat], HEX[lo as nat];
    DecodesPercent([a] + ([b] + rest), len);
    DecodesFirst(hi, [b] + rest, len);
    DecodesSecond(hi << 4, lo, rest, len);
    hide *;
    assert [PERCENT, a, b] + rest == [PERCENT] + ([a] + ([b] + rest));
  }

  lemma DecodesEscape(c: Byte, rest: seq<Byte>, len: nat)
    requires len > 0
    ensures Decoded([PERCENT, HEX[((c >> 4) & 0xf) as nat], HEX[(c & 0xf) as nat]] + rest, len, Outside)
         == Prepend(c, Decoded(rest, len - 1, Outside))
  {
    hide Decoded, HEX;
    Nibbles(c);
    DecodesDigits((c >> 4) & 0xf, c & 0xf, rest, len);
  }

  lemma DecodesByte(c: Byte, rest: seq<Byte>, len: nat)
    requires len > 0
    ensures Decoded(EncodeByte(c) + rest, len, Outside) == Prepend(c, Decoded(rest, len - 1, Outside))
  {
    if c != SPACE && !IsPlain(c) {
      DecodesEscape(c, rest, len);
    } else {
      assert (EncodeByte(c) + rest)[1..] == rest;
    }
  }

  /** Decoding the encoding gives the string back, as far as there is room. */
  lemma {:induction false} DecodeEncoded(text: seq<Byte>, len: nat)
    ensures Decoded(Encoded(text), len, Outside) == Some(text[..if len < |text| then len else |text|])
  {
    if text != [] && len > 0 {
      DecodeEncoded(text[1..], len - 1);
      DecodesByte(text[0], Encoded(text[1..]), len);
      var n := if len < |text| then len else |text|;
      assert text[..n] == [text[0]] + text[1..][..n - 1];
    }
  }

  /** Bytes already written, in front of what is still decoded. */
  function Behind(done: seq<Byte>, r: Option<seq<Byte>>): Option<seq<Byte>> {
    if r.None? then None else Some(done + r.value)
  }

  lemma BehindPrepend(done: seq<Byte>, c: Byte, r: Option<seq<Byte>>)
    ensures Behind(done, Prepend(c, r)) == Behind(done + [c], r)
  {
    if r.Some? {
      assert done + ([c] + r.value) == done + [c] + r.value;
    }
  }

  lemma DecodeStarts(escaped: seq<Byte>, text: seq<Byte>, len: nat)
    requires IsString(escaped, text)
    ensures |text| < |escaped| && forall i :: 0 <= i <= |text| ==> escaped[i] == if i < |text| then text[i] else 0
    ensures 0 !in text && Behind([], Decoded(text, len, Outside)) == Decoded(text, len, Outside)
  {
    var r := Decoded(text, len, Outside);
    assert r.Some? ==> [] + r.value == r.value;
  }

  lemma DecodeStops(text: seq<Byte>, p: nat, left: nat, state: State, done: seq<Byte>)
    requires p <= |text| && (p == |text| || left == 0)
    ensures Behind(done, Decoded(text[p..], left, state)) == Some(done)
  {
    assert done + [] == done;
  }

  lemma DecodeStep(text: seq<Byte>, p: nat, left: nat, state: State, done: seq<Byte>)
    requires p < |text| && left > 0
    ensures match DecodeOne(state, text[p])
            case Bad => Behind(done, Decoded(text[p..], left, state)) == None
            case Silent(next) =>
              Behind(done, Decoded(text[p..], left, state)) == Behind(done, Decoded(text[p + 1..], left, next))
            case Emit(out, next) =>
              Behind(done, Decoded(text[p..], left, state))
              == Behind(done + [out], Decoded(text[p + 1..], left - 1, next))
  {
    hide DecodeOne;
    assert text[p..][1..] == text[p + 1..];
    var e := DecodeOne(state, text[p]);
    if e.Emit? {
      BehindPrepend(done, e.out, Decoded(text[p + 1..], left - 1, e.next));
    }
  }

  /** The room that a length stands for: a negative one never runs out. */
  function Room(len: int, text: seq<Byte>): nat {
    if len < 0 then |text| else len
  }

  /** Decodes a string, in place if wanted: at most `len` bytes, if that is not negative, and the terminator. */
  method UrlDecode(str: array<Byte>, escaped: array<Byte>, len: int, ghost text: seq<Byte>)
    returns (r: int, ghost end: nat)
    requires IsString(escaped[..], text) && Room(len, text) < str.Length
    modifies str
    ensures r == if Decoded(text, Room(len, text), Outside).Some? then 0 else -1
    ensures r == 0 ==>
              && end <= Room(len, text) && str[end] == 0
              && str[..end] == Decoded(text, Room(len, text), Outside).value
    ensures forall i :: Room(len, text) < i < str.Length ==> str[i] == old(str[i])
  {
    hide DecodeOne, Decoded, Behind, IsString;
    ghost var room := Room(len, text);
    DecodeStarts(escaped[..], text, room);
    ghost var goal := Decoded(text, room, Outside);
    var p: nat, q: nat := 0, 0;
    var left := len;
    var state := Outside;
    assert text[0..] == text;
    while escaped[p] != 0 && left != 0
      invariant q <= p <= |text| && q <= room && q + left == len
      invariant forall i :: p <= i <= |text| ==> escaped[i] == if i < |text| then text[i] else 0
      invariant Behind(str[..q], Decoded(text[p..], room - q, state)) == goal
      invariant forall i :: room < i < str.Length ==> str[i] == old(str[i])
      decreases |text| - p
    {
      DecodeStep(text, p, room - q, state, str[..q]);
      var e := DecodeOne(state, escaped[p]);
      p := p + 1;
      match e {
        case Bad =>
          return -1, 0;
        case Silent(next) =>
          state := next;
        case Emit(out, next) =>
          str[q] := out;
          assert str[..q + 1] == str[..q] + [out];
          q := q + 1;
          left := left - 1;
          state := next;
      }
    }
    DecodeStops(text, p, room - q, state, str[..q]);
    str[q] := 0;
    return 0, q;
  }

  lemma {:induction false} EncodedGrows(text: seq<Byte>, i: nat, j: nat)
    requires i <= j <= |text|
    ensures |Encoded(text[..i])| <= |Encoded(text[..j])|
  {
    if i > 0 {
      EncodedGrows(text[1..], i - 1, j - 1);
      assert text[..i][1..] == text[1..][..i - 1] && text[..j][1..] == text[1..][..j - 1];
    }
  }

  /** The string is encoded as a whole exactly when its last byte still finds room for an escape and the terminator. */
  lemma TakenWhole(text: seq<Byte>, room: int)
    requires text != []
    ensures Taken(text, room) == |text| <==> |Encoded(text[..|text| - 1])| + 3 < room
  {
    TakenIs(text, room);
    if Taken(text, room) < |text| {
      EncodedGrows(text, Taken(text, room), |text| - 1);
    }
  }

  /**
   * Decoding what was encoded never fails, gives a beginning of the string, and all of it unless either buffer was
   * short.
   */
  lemma UrlRoundTrip(text: seq<Byte>, room: int, len: nat)
    requires room >= 1
    ensures var r := Decoded(Encoded(text[..Taken(text, room)]), len, Outside);
            && r.Some? && r.value <= text
            && (r.value == text <==> text == [] || (|Encoded(text[..|text| - 1])| + 3 < room && |text| <= len))
  {
    DecodeEncoded(text[..Taken(text, room)], len);
    if text != [] {
      TakenWhole(text, room);
    }
  }

  // ---- which bytes are escaped, and what an escape looks like ----

  predicate LetterOrDigit(c: Byte) {
    (48 <= c && c <= 57) || (65 <= c && c <= 90) || (97 <= c && c <= 122)
  }

  /** The upper-case hexadecimal digit of a value below 16. */
  function Hexadecimal(v: Byte): Byte
    requires v < 16
  {
    if v < 10 then 48 + v else 55 + v
  }

  lemma TableOfHex(v: Byte)
    requires v < 16
    ensures HEX[v as nat] == Hexadecimal(v)
  {
  }

  /** A space becomes a plus, letters and digits stay, and every other byte becomes a percent sign and two digits. */
  lemma EscapeWhen(c: Byte)
    ensures c == 32 ==> EncodeByte(c) == [43]
    ensures LetterOrDigit(c) ==> EncodeByte(c) == [c]
    ensures c != 32 && !LetterOrDigit(c) ==> EncodeByte(c) == [37, Hexadecimal(c >> 4), Hexadecimal(c & 0xf)]
  {
    Nibbles(c);
    assert (c >> 4) & 0xf == c >> 4;
    TableOfHex(c >> 4);
    TableOfHex(c & 0xf);
    hide HEX;
  }

  lemma EscapeCharacters(c: Byte)
    ensures forall i :: 0 <= i < |EncodeByte(c)| ==>
              EncodeByte(c)[i] == 43 || EncodeByte(c)[i] == 37 || LetterOrDigit(EncodeByte(c)[i])
  {
    EscapeWhen(c);
    HexadecimalIsPlain(c >> 4);
    HexadecimalIsPlain(c & 0xf);
    hide EncodeByte, Hexadecimal;
  }

  lemma HexadecimalIsPlain(v: Byte)
    ensures v < 16 ==> LetterOrDigit(Hexadecimal(v))
  {
  }

  /** Every byte of an encoding is a plus, a percent sign, a letter or a digit. */
  lemma {:induction false} EncodedCharacters(text: seq<Byte>)
    ensures forall i :: 0 <= i < |Encoded(text)| ==>
              Encoded(text)[i] == 43 || Encoded(text)[i] == 37 || LetterOrDigit(Encoded(text)[i])
  {
    if text != [] {
      EncodedCharacters(text[1..]);
      EscapeCharacters(text[0]);
      hide EncodeByte, LetterOrDigit;
    }
  }

  /** Letters and digits are their own encoding, and encodings are put together byte by byte. */
  lemma {:induction false} PlainText(text: seq<Byte>)
    requires forall i :: 0 <= i < |text| ==> LetterOrDigit(text[i])
    ensures Encoded(text) == text
  {
    if text != [] {
      PlainText(text[1..]);
      EscapeWhen(text[0]);
      hide EncodeByte, LetterOrDigit;
    }
  }

  lemma {:induction false} EncodedAppend(a: seq<Byte>, b: seq<Byte>)
    ensures Encoded(a + b) == Encoded(a) + Encoded(b)
  {
    if a == [] {
      assert a + b == b;
    } else {
      assert (a + b)[1..] == a[1..] + b;
      EncodedAppend(a[1..], b);
    }
  }

  // ---- what decoding does with any text ----

  /** The digits in either case. */
  lemma HexDigitsWhen(c: Byte)
    ensures 48 <= c && c <= 57 ==> CharToHex(c) == Some(c - 48)
    ensures 65 <= c && c <= 70 ==> CharToHex(c) == Some(c - 55)
    ensures 97 <= c && c <= 102 ==> CharToHex(c) == Some(c - 87)
    ensures !(48 <= c && c <= 57) && !(65 <= c && c <= 70) && !(97 <= c && c <= 102) ==> CharToHex(c) == None
  {
  }

  /** Anything but a percent sign stands for itself, but a plus stands for a space. */
  lemma DecodesPlain(c: Byte, rest: seq<Byte>, len: nat)
    requires len > 0 && c != 37
    ensures Decoded([c] + rest, len, Outside) == Prepend(if c == 43 then 32 else c, Decoded(rest, len - 1, Outside))
  {
    assert ([c] + rest)[1..] == rest;
  }

  /** Two digits behind a percent sign are a byte; anything else there is refused. */
  lemma DecodesPair(h: Byte, l: Byte, rest: seq<Byte>, len: nat)
    requires len > 0
    ensures Decoded([37] + ([h] + ([l] + rest)), len, Outside)
         == if CharToHex(h).None? || CharToHex(l).None? then None
            else Prepend((CharToHex(h).value << 4) | CharToHex(l).value, Decoded(rest, len - 1, Outside))
  {
    hide CharToHex;
    DecodesPercent([h] + ([l] + rest), len);
    assert ([h] + ([l] + rest))[1..] == [l] + rest && ([l] + rest)[1..] == rest;
  }

  /** An escape that the text ends in is dropped, unless it is malformed already; without room everything is dropped. */
  lemma DecodesEnd(h: Byte, text: seq<Byte>, len: nat)
    requires len > 0
    ensures Decoded([37], len, Outside) == Some([])
    ensures Decoded([37, h], len, Outside) == if CharToHex(h).None? then None else Some([])
    ensures Decoded(text, 0, Outside) == Some([]) && Decoded([], len, Outside) == Some([])
  {
    hide CharToHex;
    assert [37] == [PERCENT] + [] && [37, h] == [PERCENT] + [h];
    DecodesPercent([], len);
    DecodesPercent([h], len);
    assert [h][1..] == [];
  }
}
