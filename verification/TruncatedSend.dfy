/** The truncated-send buffer of a connection: what a short write leaves over goes out before anything else. */
module TruncatedSend {
  import opened Common

  const LWS_PRE: nat := 16

  /** What the socket does with a write: it takes up to so many bytes, would block, or fails. */
  datatype Outcome = Sent(count: nat) | MoreService | Error

  // ---- the protocol as a state machine over byte strings ----

  datatype State = State(
    pending: seq<Byte>,     // accepted, not yet on the socket
    wire: seq<Byte>,        // put on the socket
    accepted: seq<Byte>,    // all bytes of the writes that were not refused; of a torn write, the part that went out
    discarded: seq<Byte>,   // accepted but dropped while flushing before close
    blocked: bool,          // a write happened since the socket was last reported writable
    flushing: bool,         // the connection is flushing before close
    limit: nat,             // the most bytes the protocol sends at once
    room: nat,              // the size of the allocation for pending bytes
    torn: bool)             // part of a write went out and there was no memory for the rest

  datatype Event =
    | Write(data: seq<Byte>, outcome: Outcome, memory: bool)
    | Pollout(outcome: Outcome)
    | StartFlushing

  const START: State := State([], [], [], [], false, false, 0, 0, false)

  /** How many of `len` bytes go out. */
  function Taken(s: State, len: nat, outcome: Outcome): (k: nat)
    ensures k <= len
  {
    match outcome
    case Sent(count) => Min(count, Min(len, s.limit + LWS_PRE + 4))
    case _ => 0
  }

  /** A write by the protocol, and the value returned to it; `memory` tells whether an allocation would succeed. */
  function Issue(s: State, data: seq<Byte>, outcome: Outcome, memory: bool): (State, int) {
    if s.blocked then (s, -1)
    else if data == [] then (s, 0)
    else if s.flushing && s.pending == [] then
      (s.(accepted := s.accepted + data, discarded := s.discarded + data), |data|)
    else if s.pending != [] then (s, -1)
    else if outcome.Error? then (s.(blocked := true), -1)
    else
      var k := Taken(s, |data|, outcome);
      var sent := s.(wire := s.wire + data[..k], blocked := true);
      if |data| - k > s.room && !memory then
        (sent.(accepted := s.accepted + data[..k], room := 0, torn := s.torn || k > 0), -1)
      else
        (sent.(pending := data[k..], accepted := s.accepted + data,
               room := if |data| - k > s.room then |data| - k else s.room),
         |data|)
  }

  /** A write that is not refused or discarded. */
  lemma IssueFresh(s: State, data: seq<Byte>, outcome: Outcome, memory: bool)
    requires !s.blocked && data != [] && !s.flushing && s.pending == []
    ensures var k := Taken(s, |data|, outcome);
            Issue(s, data, outcome, memory) ==
              if outcome.Error? then (s.(blocked := true), -1)
              else if |data| - k > s.room && !memory then
                (State([], s.wire + data[..k], s.accepted + data[..k], s.discarded, true, false, s.limit, 0,
                       s.torn || k > 0), -1)
              else
                (State(data[k..], s.wire + data[..k], s.accepted + data, s.discarded, true, false, s.limit,
                       if |data| - k > s.room then |data| - k else s.room, s.torn), |data|)
  {
    hide Taken;
  }

  /** A write that does not reach the socket. */
  lemma IssueEarly(s: State, data: seq<Byte>, outcome: Outcome, memory: bool)
    ensures s.blocked || (data != [] && s.pending != []) ==> Issue(s, data, outcome, memory) == (s, -1)
    ensures !s.blocked && data == [] ==> Issue(s, data, outcome, memory) == (s, 0)
    ensures !s.blocked && data != [] && s.flushing && s.pending == [] ==>
              Issue(s, data, outcome, memory)
              == (s.(accepted := s.accepted + data, discarded := s.discarded + data), |data|)
  {
    hide Taken;
  }

  /** The socket became writable: pending bytes go first. */
  function Drain(s: State, outcome: Outcome): (State, int) {
    var s0 := s.(blocked := false);
    if s.pending == [] then (s0, if s.flushing then -1 else 0)
    else if outcome.Error? then (s0.(blocked := true), -1)
    else
      var k := Taken(s, |s.pending|, outcome);
      (s0.(pending := s.pending[k..], wire := s.wire + s.pending[..k], blocked := true),
       if k == |s.pending| && s.flushing then -1 else 0)
  }

  function Step(s: State, e: Event): State {
    match e
    case Write(data, outcome, memory) => Issue(s, data, outcome, memory).0
    case Pollout(outcome) => Drain(s, outcome).0
    case StartFlushing => s.(flushing := true)
  }

  function Run(s: State, events: seq<Event>): State {
    if events == [] then s else Step(Run(s, events[..|events| - 1]), events[|events| - 1])
  }

  /** Nothing is lost, duplicated or reordered; bytes are dropped only behind everything else, while flushing. */
  predicate Conserves(s: State) {
    && s.wire + s.pending + s.discarded == s.accepted
    && (s.discarded != [] ==> s.pending == [] && s.flushing)
  }

  lemma IssueConserves(s: State, data: seq<Byte>, outcome: Outcome, memory: bool)
    requires Conserves(s)
    ensures Conserves(Issue(s, data, outcome, memory).0)
  {
    hide Taken;
    var s' := Issue(s, data, outcome, memory).0;
    if s' != s && s'.accepted != s.accepted {
      if s.flushing && s.pending == [] {
        assert s'.wire + s'.pending + s'.discarded == s.wire + s.pending + s.discarded + data;
      } else {
        assert s.discarded == [] && s.wire + s.pending + s.discarded == s.wire;
        var k := Taken(s, |data|, outcome);
        assert s.wire + data[..k] + data[k..] + [] == s.wire + data;
      }
    }
  }

  lemma DrainConserves(s: State, outcome: Outcome)
    requires Conserves(s)
    ensures Conserves(Drain(s, outcome).0)
  {
    hide Taken;
    if s.pending != [] && !outcome.Error? {
      var k := Taken(s, |s.pending|, outcome);
      assert s.wire + s.pending[..k] + s.pending[k..] == s.wire + s.pending;
    }
  }

  lemma StepConserves(s: State, e: Event)
    requires Conserves(s)
    ensures Conserves(Step(s, e))
  {
    match e
    case Write(data, outcome, memory) => IssueConserves(s, data, outcome, memory);
    case Pollout(outcome) => DrainConserves(s, outcome);
    case StartFlushing =>
  }

  /** Every run of writes and drains, whatever the socket does. */
  lemma {:induction false} RunConserves(s: State, events: seq<Event>)
    requires Conserves(s)
    ensures Conserves(Run(s, events))
  {
    if events != [] {
      RunConserves(s, events[..|events| - 1]);
      StepConserves(Run(s, events[..|events| - 1]), events[|events| - 1]);
    }
  }

  /** Until bytes are discarded, the socket has seen exactly the accepted bytes that are no longer pending. */
  lemma StreamIsConserved(limit: nat, events: seq<Event>)
    ensures var s := Run(START.(limit := limit), events);
            && s.wire <= s.accepted
            && (s.discarded == [] ==> s.wire + s.pending == s.accepted)
            && (s.discarded != [] ==> s.pending == [])
  {
    RunConserves(START.(limit := limit), events);
    var s := Run(START.(limit := limit), events);
    assert s.accepted[..|s.wire|] == s.wire;
    assert s.discarded == [] ==> s.wire + s.pending + s.discarded == s.wire + s.pending;
  }

  /** Between pending bytes and the bytes that follow them no other write gets in. */
  lemma PendingGoesFirst(s: State, e: Event)
    requires s.pending != []
    ensures var s' := Step(s, e);
            && s'.accepted == s.accepted && s'.wire + s'.pending == s.wire + s.pending
            && (e.Write? && e.data != [] ==> s' == s && Issue(s, e.data, e.outcome, e.memory).1 == -1)
  {
    var s' := Step(s, e);
    if e.Pollout? && s' != s.(blocked := false) {
      assert s'.wire + s'.pending == s.wire + s.pending;
    }
  }

  /** The data of the writes that were answered with their full length, in order. */
  function AcceptedData(s: State, events: seq<Event>): seq<Byte> {
    if events == [] then []
    else
      var before, e := events[..|events| - 1], events[|events| - 1];
      AcceptedData(s, before)
      + if e.Write? && Issue(Run(s, before), e.data, e.outcome, e.memory).1 == |e.data| then e.data else []
  }

  /**
   * Exactly when a write is torn: part of it goes out, and what is left neither fits the old allocation nor gets a new
   * one.
   */
  lemma TornWhen(s: State, e: Event)
    requires !s.torn
    ensures Step(s, e).torn <==>
              && e.Write? && !e.memory && !s.blocked && !s.flushing && s.pending == [] && !e.outcome.Error?
              && var k := Taken(s, |e.data|, e.outcome); 0 < k && s.room < |e.data| - k
    ensures Step(s, e).torn ==> Issue(s, e.data, e.outcome, e.memory).1 == -1
  {
  }

  lemma AcceptedStep(s: State, e: Event)
    ensures var data := if e.Write? && Issue(s, e.data, e.outcome, e.memory).1 == |e.data| then e.data else [];
            && (Step(s, e).torn <== s.torn)
            && |Step(s, e).accepted| >= |s.accepted| + |data|
            && (Step(s, e).torn == s.torn ==> s.torn || Step(s, e).accepted == s.accepted + data)
            && (Step(s, e).torn && !s.torn ==> |Step(s, e).accepted| > |s.accepted| + |data|)
  {
    hide Taken;
  }

  lemma {:induction false} AcceptedSoFar(s: State, events: seq<Event>)
    requires !s.torn
    ensures !Run(s, events).torn ==> Run(s, events).accepted == s.accepted + AcceptedData(s, events)
    ensures Run(s, events).torn ==> |Run(s, events).accepted| > |s.accepted| + |AcceptedData(s, events)|
  {
    if events != [] {
      var before, e := events[..|events| - 1], events[|events| - 1];
      AcceptedSoFar(s, before);
      AcceptedStep(Run(s, before), e);
      hide Step, Issue;
      var data := if e.Write? && Issue(Run(s, before), e.data, e.outcome, e.memory).1 == |e.data| then e.data else [];
      assert AcceptedData(s, events) == AcceptedData(s, before) + data;
      assert s.accepted + AcceptedData(s, before) + data == s.accepted + (AcceptedData(s, before) + data);
    }
  }

  /**
   * What counts as accepted is the data of the writes that were answered with their length, exactly unless one was
   * torn.
   */
  lemma AcceptedIs(s: State, events: seq<Event>)
    requires !s.torn
    ensures Run(s, events).accepted == s.accepted + AcceptedData(s, events) <==> !Run(s, events).torn
  {
    hide Run, AcceptedData;
    AcceptedSoFar(s, events);
  }

  /** The first write can be torn: one of two bytes goes out, and the other is gone. */
  lemma FirstWriteTorn()
    ensures var s := Run(START, [Write([1, 2], Sent(1), false)]);
            s.torn && s.wire == [1] && s.pending == [] && AcceptedData(START, [Write([1, 2], Sent(1), false)]) == []
  {
    var e := Write([1, 2], Sent(1), false);
    assert [e][..0] == [];
    assert Run(START, []) == START && AcceptedData(START, []) == [];
  }

  // ---- what a caller sees ----

  /** The value that is returned for an event. */
  function Reply(s: State, e: Event): int {
    match e
    case Write(data, outcome, memory) => Issue(s, data, outcome, memory).1
    case Pollout(outcome) => Drain(s, outcome).1
    case StartFlushing => 0
  }

  /** How many of `len` bytes a socket takes that is ready for `count`: the protocol's limit and 20 more at most. */
  lemma SocketTakes(s: State, len: nat, outcome: Outcome)
    ensures outcome.Sent? ==>
              var n := Taken(s, len, outcome);
              && n <= outcome.count && n <= len && n <= s.limit + 20
              && (n == outcome.count || n == len || n == s.limit + 20)
    ensures !outcome.Sent? ==> Taken(s, len, outcome) == 0
  {
  }

  /** A write after another one without a writable socket in between is refused; so is one behind pending bytes. */
  lemma RefusedWrite(s: State, data: seq<Byte>, outcome: Outcome, memory: bool)
    requires s.blocked || (data != [] && s.pending != [])
    ensures var e := Write(data, outcome, memory); Step(s, e) == s && Reply(s, e) == -1
  {
  }

  lemma EmptyWrite(s: State, outcome: Outcome, memory: bool)
    requires !s.blocked
    ensures var e := Write([], outcome, memory); Step(s, e) == s && Reply(s, e) == 0
  {
  }

  /** While flushing before close, with nothing left to flush, writes are taken for done and go nowhere. */
  lemma DiscardedWrite(s: State, data: seq<Byte>, outcome: Outcome, memory: bool)
    requires !s.blocked && data != [] && s.flushing && s.pending == []
    ensures var e := Write(data, outcome, memory);
            && Reply(s, e) == |data|
            && Step(s, e) == s.(accepted := s.accepted + data, discarded := s.discarded + data)
  {
  }

  /** Any other write goes out as far as the socket takes it; what is left becomes pending, or the write is an error. */
  lemma FreshWrite(s: State, data: seq<Byte>, outcome: Outcome, memory: bool, n: nat)
    requires !s.blocked && data != [] && !s.flushing && s.pending == []
    requires !outcome.Error? ==> n == Taken(s, |data|, outcome)
    ensures var e := Write(data, outcome, memory);
            var s' := Step(s, e);
            && s'.blocked && s'.discarded == s.discarded && !s'.flushing && s'.limit == s.limit
            && (outcome.Error? ==> s' == s.(blocked := true) && Reply(s, e) == -1)
            && (!outcome.Error? ==> s'.wire == s.wire + data[..n])
            && (!outcome.Error? && (memory || |data| - n <= s.room) ==>
                  && Reply(s, e) == |data| && s'.pending == data[n..] && s'.accepted == s.accepted + data
                  && s'.torn == s.torn && s'.room == if |data| - n > s.room then |data| - n else s.room)
            && (!outcome.Error? && !memory && |data| - n > s.room ==>
                  Reply(s, e) == -1 && s'.pending == [] && s'.room == 0)
  {
    hide Taken;
  }

  /** A writable socket takes pending bytes from the front; if there are none, the next write may go out. */
  lemma WritableSocket(s: State, outcome: Outcome, n: nat)
    requires !outcome.Error? ==> n == Taken(s, |s.pending|, outcome)
    ensures var e := Pollout(outcome);
            var s' := Step(s, e);
            && s'.accepted == s.accepted && s'.discarded == s.discarded && s'.flushing == s.flushing
            && s'.limit == s.limit && s'.room == s.room && s'.torn == s.torn
            && (s'.blocked <==> s.pending != [])
            && (s.pending == [] ==>
                  s'.pending == [] && s'.wire == s.wire && Reply(s, e) == if s.flushing then -1 else 0)
            && (s.pending != [] && outcome.Error? ==>
                  s'.pending == s.pending && s'.wire == s.wire && Reply(s, e) == -1)
            && (s.pending != [] && !outcome.Error? ==>
                  && s'.pending == s.pending[n..] && s'.wire == s.wire + s.pending[..n]
                  && Reply(s, e) == if n == |s.pending| && s.flushing then -1 else 0)
  {
    hide Taken;
  }

  /** After a writable event with nothing pending, the next write goes out and is answered with its length. */
  lemma NextWriteGoesOut(s: State, outcome: Outcome, data: seq<Byte>, count: nat)
    requires s.pending == [] && !s.flushing && data != []
    ensures var s1 := Step(s, Pollout(outcome));
            var e := Write(data, Sent(count), true);
            var s2 := Step(s1, e);
            && Reply(s1, e) == |data| && s2.wire + s2.pending == s.wire + data && s2.accepted == s.accepted + data
            && (count > 0 ==> |s2.wire| > |s.wire|)
  {
    hide Taken;
    var s1 := Step(s, Pollout(outcome));
    WritableSocket(s, outcome, if outcome.Error? then 0 else Taken(s, 0, outcome));
    var n := Taken(s1, |data|, Sent(count));
    FreshWrite(s1, data, Sent(count), true, n);
    SocketTakes(s1, |data|, Sent(count));
    assert s.wire + data[..n] + data[n..] == s.wire + data;
  }

  // ---- the connection ----

  class Wsi {
    var truncAlloc: array?<Byte>
    var truncAllocLen: nat
    var truncOffset: nat
    var truncLen: nat
    var couldHavePending: bool
    var flushing: bool
    var socketIsPermanentlyUnusable: bool
    const txLimit: nat

    ghost var wire: seq<Byte>
    ghost var accepted: seq<Byte>
    ghost var discarded: seq<Byte>
    ghost var torn: bool

    /** The pending slice lies within the allocation. */
    ghost predicate Valid()
      reads this
    {
      && (truncAlloc != null ==> truncAllocLen == truncAlloc.Length)
      && (truncLen > 0 ==> truncAlloc != null && truncOffset + truncLen <= truncAlloc.Length)
    }

    ghost function Pending(): seq<Byte>
      requires Valid()
      reads this, truncAlloc
    {
      if truncLen == 0 then [] else truncAlloc[truncOffset..truncOffset + truncLen]
    }

    ghost function Room(): nat
      reads this
    {
      if truncAlloc == null then 0 else truncAlloc.Length
    }

    ghost function Abstract(): State
      requires Valid()
      reads this, truncAlloc
    {
      State(Pending(), wire, accepted, discarded, couldHavePending, flushing, txLimit, Room(), torn)
    }

    constructor (txLimit: nat)
      ensures Valid() && Abstract() == START.(limit := txLimit)
    {
      this.txLimit := txLimit;
      truncAlloc, truncAllocLen, truncOffset, truncLen := null, 0, 0, 0;
      couldHavePending, flushing, socketIsPermanentlyUnusable := false, false, false;
      wire, accepted, discarded, torn := [], [], [], false;
    }

    /** A pointer into the pending allocation; the drain passes one, the protocol never does. */
    predicate InTruncAlloc(buf: array<Byte>, at: nat)
      reads this
    {
      buf == truncAlloc && at <= truncLen + truncOffset
    }

    /** After a write while bytes were pending: the pending slice shrinks from the front. */
    method AdvancePending(n: nat, len: nat) returns (r: int)
      requires Valid() && 0 < truncLen == len && n <= truncLen
      modifies this`truncOffset, this`truncLen
      ensures Valid() && Pending() == old(Pending())[n..]
      ensures r < 0 <==> n == len && flushing
    {
      truncOffset := truncOffset + n;
      truncLen := truncLen - n;
      r := n;
      if truncLen == 0 {
        r := len;
        if flushing {
          return -1;
        }
      }
    }

    /** After a short write with nothing pending: the remainder is kept, in the old allocation if it is large enough. */
    method StashRemainder(buf: array<Byte>, at: nat, len: nat, memory: bool) returns (ok: bool)
      requires Valid() && truncLen == 0 && 0 < len && at + len <= buf.Length && buf != truncAlloc
      modifies this`truncAlloc, this`truncAllocLen, this`truncOffset, this`truncLen, truncAlloc
      ensures Valid() && ok == (memory || len <= old(Room()))
      ensures ok ==> Pending() == old(buf[at..at + len]) && Room() == if len > old(Room()) then len else old(Room())
      ensures !ok ==> Pending() == [] && Room() == 0
    {
      if truncAlloc == null || len > truncAllocLen {
        truncAllocLen := len;
        if !memory {
          truncAlloc := null;
          return false;
        }
        truncAlloc := new Byte[len];
      }
      truncOffset := 0;
      truncLen := len;
      for i := 0 to len
        invariant Valid() && truncOffset == 0 && truncLen == len && buf != truncAlloc
        invariant truncAlloc == old(truncAlloc) || fresh(truncAlloc)
        invariant truncAlloc != null && truncAlloc.Length == if len > old(Room()) then len else old(Room())
        invariant forall j :: 0 <= j < buf.Length ==> buf[j] == old(buf[j])
        invariant forall j :: 0 <= j < i ==> truncAlloc[j] == buf[at + j]
      {
        truncAlloc[i] := buf[at + i];
      }
      return true;
    }

    /** Puts as many bytes on the socket as it takes, and notes that a write happened. */
    method SendOnce(buf: array<Byte>, at: nat, len: nat, outcome: Outcome) returns (failed: bool, n: nat)
      requires Valid() && at + len <= buf.Length
      modifies this`wire, this`couldHavePending, this`socketIsPermanentlyUnusable
      ensures failed == outcome.Error? && couldHavePending
      ensures socketIsPermanentlyUnusable == (old(socketIsPermanentlyUnusable) || failed)
      ensures Taken(old(Abstract()), len, outcome) == if failed then 0 else n
      ensures n <= len
      ensures wire == if failed then old(wire) else old(wire) + buf[at..at + len][..n]
    {
      n := txLimit + LWS_PRE + 4;
      if n > len {
        n := len;
      }
      couldHavePending := true;
      failed := false;
      match outcome {
        case Error =>
          socketIsPermanentlyUnusable := true;
          failed := true;
          n := 0;
          return;
        case MoreService =>
          n := 0;
        case Sent(count) =>
          n := Min(count, n);
      }
      assert buf[at..at + n] == buf[at..at + len][..n];
      wire := wire + buf[at..at + n];
    }

    /** The checks in front of the socket write: an answer that needs no write, or none. */
    method RefuseOrDiscard(buf: array<Byte>, at: nat, len: nat) returns (done: bool, r: int)
      requires Valid() && at + len <= buf.Length
      modifies this`accepted, this`discarded
      ensures done == (couldHavePending || len == 0 || (flushing && truncLen == 0)
                       || (truncLen > 0 && !InTruncAlloc(buf, at)))
      ensures done ==> r == if couldHavePending then -1 else if len == 0 then 0 else if truncLen == 0 then len else -1
      ensures if !couldHavePending && len > 0 && flushing && truncLen == 0
              then accepted == old(accepted) + buf[at..at + len] && discarded == old(discarded) + buf[at..at + len]
              else accepted == old(accepted) && discarded == old(discarded)
    {
      done, r := true, -1;
      if couldHavePending {
        return;
      }
      if len == 0 {
        r := 0;
        return;
      }
      if flushing && truncLen == 0 {
        accepted, discarded := accepted + buf[at..at + len], discarded + buf[at..at + len];
        r := len;
        return;
      }
      if truncLen > 0 && !InTruncAlloc(buf, at) {
        return;
      }
      done := false;
    }

    /** A write by the protocol, or by the drain with the pending slice itself. */
    method IssueRaw(buf: array<Byte>, at: nat, len: nat, outcome: Outcome, memory: bool) returns (r: int)
      requires Valid() && at + len <= buf.Length
      requires buf == truncAlloc ==> truncLen > 0 && at == truncOffset && len == truncLen && !couldHavePending
      modifies this, truncAlloc
      ensures Valid()
      ensures buf != old(truncAlloc) ==>
                (Abstract(), r) == Issue(old(Abstract()), old(buf[at..at + len]), outcome, memory)
      ensures buf == old(truncAlloc) ==>
                var k := Taken(old(Abstract()), len, outcome);
                && couldHavePending && accepted == old(accepted) && discarded == old(discarded)
                && flushing == old(flushing)
                && Room() == old(Room()) && torn == old(torn)
                && wire == old(wire) + old(Pending())[..k] && Pending() == old(Pending())[k..]
                && (r < 0 <==> outcome.Error? || (k == len && flushing))
      ensures socketIsPermanentlyUnusable
          == (old(socketIsPermanentlyUnusable) || (outcome.Error? && couldHavePending && !old(couldHavePending)))
    {
      hide Taken, Issue;
      IssueEarly(Abstract(), buf[at..at + len], outcome, memory);
      var done;
      done, r := RefuseOrDiscard(buf, at, len);
      if done {
        return;
      }
      if truncLen > 0 {
        r := SendPending(buf, at, len, outcome);
      } else {
        r := SendFresh(buf, at, len, outcome, memory);
      }
    }

    /** The pending slice goes to the socket. */
    method SendPending(buf: array<Byte>, at: nat, len: nat, outcome: Outcome) returns (r: int)
      requires Valid() && truncLen > 0 && buf == truncAlloc && at == truncOffset && len == truncLen
      modifies this`wire, this`couldHavePending, this`socketIsPermanentlyUnusable, this`truncOffset, this`truncLen
      ensures Valid() && couldHavePending && Room() == old(Room())
      ensures var k := Taken(old(Abstract()), len, outcome);
              && wire == old(wire) + old(Pending())[..k] && Pending() == old(Pending())[k..]
              && (r < 0 <==> outcome.Error? || (k == len && flushing))
      ensures socketIsPermanentlyUnusable == (old(socketIsPermanentlyUnusable) || outcome.Error?)
    {
      hide Taken;
      ghost var data := buf[at..at + len];
      var failed, n := SendOnce(buf, at, len, outcome);
      if failed {
        assert wire == old(wire) + data[..0] && data[0..] == data;
        return -1;
      }
      r := AdvancePending(n, len);
    }

    /** New bytes go to the socket, and what it does not take is kept. */
    method SendFresh(buf: array<Byte>, at: nat, len: nat, outcome: Outcome, memory: bool) returns (r: int)
      requires Valid() && truncLen == 0 && at + len <= buf.Length && buf != truncAlloc
      requires !couldHavePending && len > 0 && !flushing
      modifies this, truncAlloc
      ensures Valid() && couldHavePending
      ensures (Abstract(), r) == Issue(old(Abstract()), old(buf[at..at + len]), outcome, memory)
      ensures socketIsPermanentlyUnusable == (old(socketIsPermanentlyUnusable) || outcome.Error?)
    {
      hide Taken, Issue;
      ghost var data, before := buf[at..at + len], Abstract();
      IssueFresh(before, data, outcome, memory);
      var failed, n := SendOnce(buf, at, len, outcome);
      if failed {
        return -1;
      }
      assert Taken(before, |data|, outcome) == n && wire == before.wire + data[..n];
      r := FinishWrite(buf, at, len, n, memory);
    }

    /** The write took `n` of `len` bytes and nothing was pending before it. */
    method FinishWrite(buf: array<Byte>, at: nat, len: nat, n: nat, memory: bool) returns (r: int)
      requires Valid() && truncLen == 0 && n <= len && at + len <= buf.Length && buf != truncAlloc
      modifies this`truncAlloc, this`truncAllocLen, this`truncOffset, this`truncLen, truncAlloc
      modifies this`accepted, this`torn
      ensures Valid() && r == if len - n > old(Room()) && !memory then -1 else len
      ensures r < 0 ==> Pending() == [] && Room() == 0
      ensures r >= 0 ==>
                && Pending() == old(buf[at..at + len])[n..]
                && Room() == if len - n > old(Room()) then len - n else old(Room())
      ensures var data := old(buf[at..at + len]);
              && accepted == old(accepted) + (if r < 0 then data[..n] else data)
              && torn == (old(torn) || (r < 0 && n > 0))
    {
      ghost var data := buf[at..at + len];
      r := len;
      if n < len {
        assert data[n..] == buf[at + n..at + len];
        var ok := StashRemainder(buf, at + n, len - n, memory);
        r := if ok then len else -1;
      }
      accepted := accepted + (if r < 0 then data[..n] else data);
      torn := torn || (r < 0 && n > 0);
    }

    method HandlePollout(outcome: Outcome) returns (r: int)
      requires Valid()
      modifies this, truncAlloc
      ensures Valid() && (Abstract(), r) == Drain(old(Abstract()), outcome)
      ensures socketIsPermanentlyUnusable
          == (old(socketIsPermanentlyUnusable) || (if old(truncLen) > 0 then outcome.Error? else flushing))
    {
      couldHavePending := false;
      ghost var before := Pending();
      assert before == old(Pending());
      if truncLen > 0 {
        var sent := IssueRaw(truncAlloc, truncOffset, truncLen, outcome, true);
        assert before[0..] == before && old(wire) + before[..0] == old(wire);
        if sent < 0 {
          return -1;
        }
        return 0;
      } else if flushing {
        socketIsPermanentlyUnusable := true;
        return -1;
      }
      return 0;
    }
  }
}
