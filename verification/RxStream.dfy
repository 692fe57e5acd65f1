/** Received bytes on their way to the protocol, as a state machine over byte strings. */
module RxStream {
  import opened Common

  /** The segments of a buflist: what is left to read of each, in order. */
  type Segments = seq<seq<Byte>>

  const LWS_SSL_CAPABLE_MORE_SERVICE: int := -4

  /** The walk to the end of the list gives up at so many segments. */
  const SANITY: nat := 1024

  /** What the socket read gives: bytes, or a code that is not positive. */
  datatype Arrival = Arrival(len: int, data: seq<Byte>) {
    predicate Valid() {
      if len > 0 then |data| == len else data == []
    }
  }

  /** What a read hands to the protocol. */
  datatype Tokens = Tokens(len: int, token: seq<Byte>)

  predicate NoneEmpty(segs: Segments) {
    forall i :: 0 <= i < |segs| ==> segs[i] != []
  }

  lemma {:induction false} ConcatAppend(segs: Segments, s: seq<Byte>)
    ensures Concat(segs + [s]) == Concat(segs) + s
  {
    if segs == [] {
      assert (segs + [s])[1..] == [];
    } else {
      ConcatAppend(segs[1..], s);
      assert (segs + [s])[1..] == segs[1..] + [s];
    }
  }

  // ---- the list operations ----

  /** A segment at the end of the list; `memory` tells whether the allocation succeeds. */
  function Append(segs: Segments, data: seq<Byte>, memory: bool): Option<Segments> {
    if |segs| >= SANITY || !memory then None else Some(segs + [data])
  }

  /** The first `n` bytes of the first segment are used up. */
  function Use(segs: Segments, n: nat): Segments
    requires segs != [] && n <= |segs[0]|
  {
    if n == |segs[0]| then segs[1..] else [segs[0][n..]] + segs[1..]
  }

  lemma UseDrops(segs: Segments, n: nat)
    requires segs != [] && n <= |segs[0]| && NoneEmpty(segs)
    ensures NoneEmpty(Use(segs, n)) && Concat(segs) == segs[0][..n] + Concat(Use(segs, n))
  {
    var first, rest := segs[0], segs[1..];
    if n < |first| {
      ConcatFirst(first[n..], rest);
      hide Concat;
      assert first == first[..n] + first[n..];
      assert first + Concat(rest) == first[..n] + (first[n..] + Concat(rest));
    } else {
      assert first[..n] == first;
    }
    ConcatFirst(first, rest);
    assert segs == [first] + rest;
  }

  lemma ConcatFirst(first: seq<Byte>, rest: Segments)
    ensures Concat([first] + rest) == first + Concat(rest)
  {
    assert ([first] + rest)[1..] == rest;
  }

  // ---- the operations of a connection ----

  /** A read: the return code, what the protocol is given, and the list afterwards. */
  function Read(segs: Segments, a: Arrival, memory: bool): (int, Tokens, Segments) {
    var prior := segs != [];
    if a.len == LWS_SSL_CAPABLE_MORE_SERVICE && prior then (1, Tokens(|segs[0]|, segs[0]), segs)
    else if a.len <= 0 || !prior then (0, Tokens(a.len, a.data), segs)
    else match Append(segs, a.data, memory)
      case None => (-1, Tokens(a.len, a.data), segs)
      case Some(more) => (1, Tokens(|more[0]|, more[0]), more)
  }

  /**
   * The protocol used so many bytes of what it was given; the result code is not zero when the rest could not be kept.
   */
  function Consume(segs: Segments, t: Tokens, used: nat, buffered: bool, memory: bool): (int, Segments)
    requires |t.token| == t.len && used <= t.len
    requires buffered ==> segs != [] && segs[0] == t.token
  {
    if buffered then (0, if used == 0 then segs else Use(segs, used))
    else if used == t.len then (0, segs)
    else match Append(segs, t.token[used..], memory)
      case None => (1, segs)
      case Some(more) => (0, more)
  }

  /** Receive flow control: the protocol keeps bytes it was given from the socket for later. */
  function Cache(segs: Segments, rest: seq<Byte>, inside: bool, memory: bool): (int, Segments) {
    if segs != [] && inside then (1, segs)
    else match Append(segs, rest, memory)
      case None => (-1, segs)
      case Some(more) => (if segs != [] then 1 else 0, more)
  }

  // ---- the state machine ----

  datatype State = State(
    received: seq<Byte>,        // everything that came from the socket
    used: seq<Byte>,            // everything the protocol used
    segs: Segments,
    hand: Option<Tokens>,       // given to the protocol by a read, not consumed yet
    buffered: bool)             // it came from the list

  datatype Event =
    | DoRead(a: Arrival, memory: bool)
    | DoConsume(n: nat, memory: bool)
    | DoCache(n: nat, memory: bool)

  const START: State := State([], [], [], None, false)

  /** The next state; no state after a fatal error. */
  function Step(s: State, e: Event): Option<State> {
    match e
    case DoRead(a, memory) =>
      if s.hand.Some? || !a.Valid() then Some(s) else
      var (code, t, segs) := Read(s.segs, a, memory);
      if code < 0 then None else
      Some(s.(received := s.received + a.data, segs := segs, hand := if t.len > 0 then Some(t) else None,
              buffered := code == 1))
    case DoConsume(n, memory) =>
      if s.hand.None? || !Consistent(s) || n > s.hand.value.len then Some(s) else
      var (code, segs) := Consume(s.segs, s.hand.value, n, s.buffered, memory);
      if code != 0 then None else
      Some(s.(used := s.used + s.hand.value.token[..n], segs := segs, hand := None))
    case DoCache(n, memory) =>
      if s.hand.None? || !Consistent(s) || s.buffered || n >= s.hand.value.len then Some(s) else
      var (code, segs) := Cache(s.segs, s.hand.value.token[n..], false, memory);
      if code < 0 then None else
      Some(s.(used := s.used + s.hand.value.token[..n], segs := segs, hand := None))
  }

  function Run(s: State, events: seq<Event>): Option<State> {
    if events == [] then Some(s) else
    match Run(s, events[..|events| - 1])
    case None => None
    case Some(s1) => Step(s1, events[|events| - 1])
  }

  /** What was given to the protocol is the head of the list, or there is no list. */
  predicate Consistent(s: State) {
    s.hand.Some? ==>
      && |s.hand.value.token| == s.hand.value.len && s.hand.value.len > 0
      && if s.buffered then s.segs != [] && s.segs[0] == s.hand.value.token else s.segs == []
  }

  /** The bytes received and not yet used, in order. */
  ghost function Unread(s: State): seq<Byte> {
    if s.hand.Some? && !s.buffered then s.hand.value.token + Concat(s.segs) else Concat(s.segs)
  }

  ghost predicate Conserves(s: State) {
    NoneEmpty(s.segs) && Consistent(s) && s.used + Unread(s) == s.received
  }

  lemma ReadConserves(s: State, a: Arrival, memory: bool)
    requires Conserves(s)
    ensures Step(s, DoRead(a, memory)).Some? ==> Conserves(Step(s, DoRead(a, memory)).value)
  {
    var (code, t, segs) := Read(s.segs, a, memory);
    if s.hand.None? && a.Valid() && code >= 0 {
      if a.data != [] && s.segs != [] {
        ConcatAppend(s.segs, a.data);
        assert s.used + (Concat(s.segs) + a.data) == s.received + a.data;
      } else if s.segs == [] {
        assert a.data + Concat([]) == a.data && s.used + Concat([]) == s.used;
      }
    }
  }

  /** The protocol used bytes it was given from the socket, and the rest becomes the list. */
  lemma KeepRest(s: State, n: nat)
    requires Conserves(s) && s.hand.Some? && !s.buffered && n <= s.hand.value.len
    ensures s.used + s.hand.value.token[..n] + Concat(s.segs + [s.hand.value.token[n..]]) == s.received
    ensures n == s.hand.value.len ==> s.used + s.hand.value.token[..n] + Concat(s.segs) == s.received
  {
    var token := s.hand.value.token;
    assert s.segs == [] && token + Concat([]) == token;
    assert s.used + token == s.received;
    assert s.segs + [token[n..]] == [token[n..]] && Concat([token[n..]]) == token[n..];
    assert token == token[..n] + token[n..];
  }

  /** The protocol used bytes of the first segment. */
  lemma UseFirst(s: State, n: nat)
    requires Conserves(s) && s.hand.Some? && s.buffered && n <= s.hand.value.len
    ensures s.used + s.hand.value.token[..n] + Concat(Use(s.segs, n)) == s.received && NoneEmpty(Use(s.segs, n))
    ensures n == 0 ==> s.used + s.hand.value.token[..n] == s.used
  {
    UseDrops(s.segs, n);
    var token := s.hand.value.token;
    assert s.used + (token[..n] + Concat(Use(s.segs, n))) == s.used + token[..n] + Concat(Use(s.segs, n));
  }

  lemma ConsumeConserves(s: State, n: nat, memory: bool)
    requires Conserves(s)
    ensures Step(s, DoConsume(n, memory)).Some? ==> Conserves(Step(s, DoConsume(n, memory)).value)
  {
    hide Concat, Use;
    if s.hand.Some? && n <= s.hand.value.len {
      if s.buffered {
        UseFirst(s, n);
      } else {
        KeepRest(s, n);
      }
    }
  }

  lemma CacheConserves(s: State, n: nat, memory: bool)
    requires Conserves(s)
    ensures Step(s, DoCache(n, memory)).Some? ==> Conserves(Step(s, DoCache(n, memory)).value)
  {
    hide Concat, Use;
    if s.hand.Some? && !s.buffered && n < s.hand.value.len {
      KeepRest(s, n);
    }
  }

  lemma {:induction false} RunConserves(s: State, events: seq<Event>)
    requires Conserves(s)
    ensures Run(s, events).Some? ==> Conserves(Run(s, events).value)
  {
    if events != [] {
      RunConserves(s, events[..|events| - 1]);
      var before := Run(s, events[..|events| - 1]);
      if before.Some? {
        match events[|events| - 1]
        case DoRead(a, memory) => ReadConserves(before.value, a, memory);
        case DoConsume(n, memory) => ConsumeConserves(before.value, n, memory);
        case DoCache(n, memory) => CacheConserves(before.value, n, memory);
      }
    }
  }

  /**
   * Over every run: the bytes used, then what the protocol holds from the socket, then the list, are the bytes
   * received.
   */
  lemma StreamIsConserved(events: seq<Event>)
    requires Run(START, events).Some?
    ensures var s := Run(START, events).value;
            && s.used <= s.received
            && (s.hand.None? || s.buffered ==> s.used + Concat(s.segs) == s.received)
            && (s.hand.Some? && !s.buffered ==> s.segs == [] && s.used + s.hand.value.token == s.received)
  {
    hide Run;
    assert START.used + Concat([]) == START.received;
    RunConserves(START, events);
    var s := Run(START, events).value;
    assert s.received[..|s.used|] == s.used;
    if s.hand.Some? && !s.buffered {
      assert s.hand.value.token + [] == s.hand.value.token;
    }
  }

  /** What a read hands out is always exactly the next unused part of the stream. */
  lemma HandIsNext(events: seq<Event>)
    requires Run(START, events).Some? && Run(START, events).value.hand.Some?
    ensures var s := Run(START, events).value; s.used + s.hand.value.token <= s.received
  {
    hide Run;
    StreamIsConserved(events);
    assert START.used + Concat([]) == START.received;
    RunConserves(START, events);
    var s := Run(START, events).value;
    if s.buffered {
      assert Concat(s.segs) == s.hand.value.token + Concat(s.segs[1..]);
      assert s.used + Concat(s.segs) == s.used + s.hand.value.token + Concat(s.segs[1..]);
    }
  }

  /**
   * When received bytes are lost: a read finds bytes in the list and no place for more, or the protocol leaves bytes
   * that came from the socket and there is no memory for them.
   */
  lemma FatalWhenNotKept(s: State, e: Event)
    requires Conserves(s)
    ensures Step(s, e).None? <==>
              match e
              case DoRead(a, memory) =>
                s.hand.None? && a.Valid() && a.len > 0 && s.segs != [] && (!memory || |s.segs| >= SANITY)
              case DoConsume(n, memory) => s.hand.Some? && !s.buffered && n < s.hand.value.len && !memory
              case DoCache(n, memory) => s.hand.Some? && !s.buffered && n < s.hand.value.len && !memory
  {
    hide Concat, Use;
  }

  // ---- runs that end in a loss ----

  /** One byte is read and left, then `n - 1` more are read while the protocol uses nothing. */
  function Filling(n: nat): seq<Event>
    requires n > 0
  {
    var arrival := DoRead(Arrival(1, [0]), true);
    (if n == 1 then [] else Filling(n - 1)) + [arrival, DoConsume(0, true)]
  }

  lemma RunTwo(s: State, events: seq<Event>, e: Event, e': Event)
    requires Run(s, events).Some? && Step(Run(s, events).value, e).Some?
    ensures Run(s, events + [e, e']) == Step(Step(Run(s, events).value, e).value, e')
  {
    assert (events + [e, e'])[..|events| + 1] == events + [e];
    assert (events + [e])[..|events|] == events;
  }

  /** The list can fill up to the last segment that is allowed. */
  lemma {:induction false} FillsUp(n: nat)
    requires 0 < n <= SANITY
    ensures Run(START, Filling(n)).Some?
    ensures var s := Run(START, Filling(n)).value; |s.segs| == n && NoneEmpty(s.segs) && s.hand.None?
  {
    var before := if n == 1 then [] else Filling(n - 1);
    if n > 1 {
      FillsUp(n - 1);
    }
    RunTwo(START, before, DoRead(Arrival(1, [0]), true), DoConsume(0, true));
  }

  /** Then the next bytes from the socket are gone, although there is memory; without memory one segment is enough. */
  lemma BytesCanBeLost(memory: bool)
    ensures var events := Filling(if memory then SANITY else 1);
            && Run(START, events).Some?
            && Run(START, events + [DoRead(Arrival(1, [0]), memory)]) == None
  {
    var n := if memory then SANITY else 1;
    FillsUp(n);
    var events := Filling(n);
    hide Filling;
    assert (events + [DoRead(Arrival(1, [0]), memory)])[..|events|] == events;
  }

  // ---- what a caller sees ----

  /** What a read hands out: the oldest bytes there are, or the code of the socket. */
  lemma ReadHands(segs: Segments, a: Arrival, memory: bool)
    requires a.Valid()
    ensures var (code, t, segs') := Read(segs, a, memory);
            && (a.len == -4 && segs != [] ==> code == 1 && t == Tokens(|segs[0]|, segs[0]) && segs' == segs)
            && (a.len <= 0 && !(a.len == -4 && segs != []) ==> code == 0 && t == Tokens(a.len, []) && segs' == segs)
            && (a.len > 0 && segs == [] ==> code == 0 && t == Tokens(a.len, a.data) && segs' == segs)
            && (a.len > 0 && segs != [] && (|segs| >= 1024 || !memory) ==> code == -1 && segs' == segs)
            && (a.len > 0 && 0 < |segs| < 1024 && memory ==>
                  code == 1 && t == Tokens(|segs[0]|, segs[0]) && segs' == segs + [a.data])
  {
  }

  /** After a read the protocol has bytes in hand, unless there are none: the first segment, or all that arrived. */
  lemma HandAfterRead(s: State, a: Arrival, memory: bool)
    requires Conserves(s) && s.hand.None? && a.Valid() && Step(s, DoRead(a, memory)).Some?
    ensures var s' := Step(s, DoRead(a, memory)).value;
            && (s'.hand.None? <==> a.len <= 0 && (s.segs == [] || a.len != -4))
            && (s'.hand.Some? && s.segs != [] ==>
                  s'.hand == Some(Tokens(|s.segs[0]|, s.segs[0])) && s.segs[0] != [] && s'.buffered)
            && (s'.hand.Some? && s.segs == [] ==> s'.hand == Some(Tokens(a.len, a.data)) && !s'.buffered)
            && s'.received == s.received + a.data && s'.used == s.used
  {
    hide Concat;
    ReadHands(s.segs, a, memory);
  }

  /** What is left behind by a consume: what was used goes, and the rest of bytes from the socket is kept. */
  lemma ConsumeLeaves(segs: Segments, t: Tokens, used: nat, buffered: bool, memory: bool)
    requires |t.token| == t.len && used <= t.len && (buffered ==> segs != [] && segs[0] == t.token)
    ensures var (code, segs') := Consume(segs, t, used, buffered, memory);
            && (buffered ==> code == 0)
            && (buffered && used < t.len ==> segs' == [t.token[used..]] + segs[1..])
            && (buffered && used == t.len && used > 0 ==> segs' == segs[1..])
            && (!buffered && used == t.len ==> code == 0 && segs' == segs)
            && (!buffered && used < t.len && (|segs| >= 1024 || !memory) ==> code == 1 && segs' == segs)
            && (!buffered && used < t.len && |segs| < 1024 && memory ==> code == 0 && segs' == segs + [t.token[used..]])
  {
    if buffered && used == 0 {
      assert segs == [segs[0]] + segs[1..];
    }
  }

  /** Flow control: 1 when there were bytes in the list already, 0 when there were none, negative when they are lost. */
  lemma CacheKeeps(segs: Segments, rest: seq<Byte>, inside: bool, memory: bool)
    ensures var (code, segs') := Cache(segs, rest, inside, memory);
            && (segs != [] && inside ==> code == 1 && segs' == segs)
            && (!(segs != [] && inside) && (|segs| >= 1024 || !memory) ==> code == -1 && segs' == segs)
            && (!(segs != [] && inside) && |segs| < 1024 && memory ==>
                  code == (if segs == [] then 0 else 1) && segs' == segs + [rest])
  {
  }
}
