/** Whole lives of a ring with several consumers, against a model that has only queues. */
module RingLife {
  import opened Common
  import opened RingArcs
  import opened Ring

  datatype Event =
    | InsertElements(src: seq<Byte>, count: nat)
    | ConsumeElements(who: nat, count: nat)
    | Leave(who: nat)

  /** An event that makes sense with so many consumers; the last consumer stays. */
  predicate Possible(e: Event, elementLen: nat, consumers: nat) {
    match e
    case InsertElements(src, count) => |src| == count * elementLen
    case ConsumeElements(who, _) => who < consumers
    case Leave(who) => who < consumers && consumers > 1
  }

  // ---- the model: a queue for every consumer ----

  /** What every consumer has waiting, and all elements that were taken in so far. */
  datatype Life = Life(queues: seq<seq<Byte>>, accepted: seq<seq<Byte>>)

  function Longest(queues: seq<seq<Byte>>): nat {
    if queues == [] then 0
    else
      var rest := Longest(queues[1..]);
      if rest < |queues[0]| then |queues[0]| else rest
  }

  /** How many elements fit when the longest queue has so many bytes. */
  function FreeIn(buflen: nat, elementLen: nat, longest: nat): nat
    requires elementLen > 0
  {
    var f := buflen - elementLen - longest;
    if f < 2 then 0 else Count(f, elementLen)
  }

  /** The bytes of the elements that an insert takes in. */
  function TakenIn(buflen: nat, elementLen: nat, queues: seq<seq<Byte>>, src: seq<Byte>, count: nat): seq<Byte>
    requires elementLen > 0 && |src| == count * elementLen
  {
    var n := Min(FreeIn(buflen, elementLen, Longest(queues)), count);
    SmallerProduct(n, count, elementLen);
    src[..n * elementLen]
  }

  /** Every queue takes in the same bytes. */
  function Grown(queues: seq<seq<Byte>>, bytes: seq<Byte>): (r: seq<seq<Byte>>)
    ensures |r| == |queues|
  {
    seq(|queues|, i requires 0 <= i < |queues| => queues[i] + bytes)
  }

  /** A step of the model; what makes no sense changes nothing. */
  function Next(buflen: nat, elementLen: nat, life: Life, e: Event): Life
    requires elementLen > 0
  {
    if !Possible(e, elementLen, |life.queues|) then life
    else match e
      case InsertElements(src, count) =>
        var bytes := TakenIn(buflen, elementLen, life.queues, src, count);
        Life(Grown(life.queues, bytes), life.accepted + Elements(bytes, elementLen))
      case ConsumeElements(who, count) =>
        var queue := life.queues[who];
        life.(queues := life.queues[who := queue[Min(|queue|, count * elementLen)..]])
      case Leave(who) =>
        life.(queues := life.queues[..who] + life.queues[who + 1..])
  }

  function Lived(buflen: nat, elementLen: nat, life: Life, events: seq<Event>): Life
    requires elementLen > 0
  {
    if events == [] then life
    else Next(buflen, elementLen, Lived(buflen, elementLen, life, events[..|events| - 1]), events[|events| - 1])
  }

  /** Every consumer starts with nothing waiting. */
  function Born(consumers: nat): Life {
    Life(seq(consumers, _ => []), [])
  }

  lemma {:induction false} ConcatAppend<T>(a: seq<seq<T>>, b: seq<seq<T>>)
    ensures Concat(a + b) == Concat(a) + Concat(b)
  {
    if a == [] {
      assert a + b == b;
    } else {
      assert (a + b)[1..] == a[1..] + b;
      ConcatAppend(a[1..], b);
    }
  }

  lemma {:induction false} ConcatElements(bytes: seq<Byte>, n: nat, elementLen: nat)
    requires elementLen > 0 && |bytes| == n * elementLen
    ensures Concat(Elements(bytes, elementLen)) == bytes
  {
    if n > 0 {
      assert n * elementLen == elementLen + (n - 1) * elementLen;
      ConcatElements(bytes[elementLen..], n - 1, elementLen);
    }
  }

  /** Every queue is the end of what was taken in. */
  ghost predicate InOrder(life: Life) {
    forall i :: 0 <= i < |life.queues| ==> IsEnd(life.queues[i], Concat(life.accepted))
  }

  predicate IsEnd(q: seq<Byte>, all: seq<Byte>) {
    |q| <= |all| && q == all[|all| - |q|..]
  }

  lemma TakenInIsWhole(buflen: nat, elementLen: nat, queues: seq<seq<Byte>>, src: seq<Byte>, count: nat)
    requires elementLen > 0 && |src| == count * elementLen
    ensures var bytes := TakenIn(buflen, elementLen, queues, src, count); Concat(Elements(bytes, elementLen)) == bytes
  {
    var n := Min(FreeIn(buflen, elementLen, Longest(queues)), count);
    SmallerProduct(n, count, elementLen);
    ConcatElements(src[..n * elementLen], n, elementLen);
  }

  lemma NextInOrder(buflen: nat, elementLen: nat, life: Life, e: Event)
    requires elementLen > 0 && InOrder(life)
    ensures InOrder(Next(buflen, elementLen, life, e))
  {
    hide TakenIn, Elements, Concat, IsEnd, Grown, Next;
    if !Possible(e, elementLen, |life.queues|) {
      NotPossible(buflen, elementLen, life, e);
    } else if e.InsertElements? {
      InsertInOrder(buflen, elementLen, life, e.src, e.count);
    } else {
      ShrinkInOrder(buflen, elementLen, life, e);
    }
  }

  lemma NotPossible(buflen: nat, elementLen: nat, life: Life, e: Event)
    requires elementLen > 0 && !Possible(e, elementLen, |life.queues|)
    ensures Next(buflen, elementLen, life, e) == life
  {
    hide TakenIn, Elements, Grown;
  }

  lemma InsertInOrder(buflen: nat, elementLen: nat, life: Life, src: seq<Byte>, count: nat)
    requires elementLen > 0 && InOrder(life) && |src| == count * elementLen
    ensures InOrder(Next(buflen, elementLen, life, InsertElements(src, count)))
  {
    hide TakenIn, Elements, Concat, IsEnd, InOrder, Grown;
    var bytes := TakenIn(buflen, elementLen, life.queues, src, count);
    TakenInIsWhole(buflen, elementLen, life.queues, src, count);
    ConcatAppend(life.accepted, Elements(bytes, elementLen));
    AllGrow(life, Elements(bytes, elementLen), bytes);
  }

  lemma ShrinkInOrder(buflen: nat, elementLen: nat, life: Life, e: Event)
    requires elementLen > 0 && InOrder(life) && Possible(e, elementLen, |life.queues|) && !e.InsertElements?
    ensures InOrder(Next(buflen, elementLen, life, e))
  {
    hide TakenIn, Elements, Concat, Grown;
    if e.ConsumeElements? {
      var queue := life.queues[e.who];
      assert IsEnd(queue[Min(|queue|, e.count * elementLen)..], Concat(life.accepted));
    }
  }

  lemma AllGrow(life: Life, added: seq<seq<Byte>>, bytes: seq<Byte>)
    requires InOrder(life) && Concat(life.accepted + added) == Concat(life.accepted) + bytes
    ensures InOrder(Life(Grown(life.queues, bytes), life.accepted + added))
  {
    hide Concat, IsEnd;
    forall i | 0 <= i < |life.queues| ensures IsEnd(life.queues[i] + bytes, Concat(life.accepted) + bytes) {
      BothGrow(life.queues[i], Concat(life.accepted), bytes);
    }
  }

  lemma BothGrow(q: seq<Byte>, all: seq<Byte>, bytes: seq<Byte>)
    requires IsEnd(q, all)
    ensures IsEnd(q + bytes, all + bytes)
  {
  }

  /**
   * The model is first in, first out for every consumer: what it has waiting is always the end of what was taken in.
   */
  lemma {:induction false} LivedInOrder(buflen: nat, elementLen: nat, consumers: nat, events: seq<Event>)
    requires elementLen > 0
    ensures InOrder(Lived(buflen, elementLen, Born(consumers), events))
  {
    hide Next, InOrder;
    if events == [] {
      BornInOrder(consumers);
    } else {
      var before := events[..|events| - 1];
      LivedInOrder(buflen, elementLen, consumers, before);
      NextInOrder(buflen, elementLen, Lived(buflen, elementLen, Born(consumers), before), events[|events| - 1]);
    }
  }

  lemma BornInOrder(consumers: nat)
    ensures InOrder(Born(consumers))
  {
  }

  // ---- the ring and the model ----

  predicate Distinct(consumers: seq<Consumer>) {
    forall i, j :: 0 <= i < j < |consumers| ==> consumers[i] != consumers[j]
  }

  /** Every consumer's tail has its queue waiting in the ring, and what was inserted is what the model took in. */
  ghost predicate Mirrors(ring: LwsRing, consumers: seq<Consumer>, life: Life)
    requires ring.Valid()
    reads ring, ring.buf, consumers
  {
    && consumers != [] && Distinct(consumers) && ring.Tracks(consumers) && ring.Conserved()
    && |life.queues| == |consumers| && ring.inserted == life.accepted
    && forall i :: 0 <= i < |consumers| ==> ring.Waiting(consumers[i].tail) == life.queues[i]
  }

  lemma LongestIs(queues: seq<seq<Byte>>, m: nat, k: nat)
    requires k < |queues| && |queues[k]| == m && forall i :: 0 <= i < |queues| ==> |queues[i]| <= m
    ensures Longest(queues) == m
  {
    if k > 0 {
      LongestIs(queues[1..], m, k - 1);
    } else {
      LongestAtMost(queues[1..], m);
    }
  }

  lemma LongestAtMost(queues: seq<seq<Byte>>, m: nat)
    requires forall i :: 0 <= i < |queues| ==> |queues[i]| <= m
    ensures Longest(queues) <= m
  {
  }

  /** The slowest consumer determines how much is free. */
  lemma FreeIsShared(ring: LwsRing, consumers: seq<Consumer>, life: Life)
    requires ring.Valid() && Mirrors(ring, consumers, life)
    ensures ring.Free() == FreeIn(ring.buflen, ring.elementLen, Longest(life.queues))
  {
    hide Aligned, Count, Longest, Elements;
    var k :| 0 <= k < |consumers| && consumers[k].tail == ring.oldestTail;
    var m := Distance(ring.buflen, ring.oldestTail, ring.head);
    forall i | 0 <= i < |life.queues| ensures |life.queues[i]| <= m {
      assert ring.OnArc(consumers[i].tail);
    }
    LongestIs(life.queues, m, k);
  }

  method InsertForAll(ring: LwsRing, consumers: seq<Consumer>, src: seq<Byte>, count: nat, ghost life: Life)
    requires ring.Valid() && Mirrors(ring, consumers, life) && |src| == count * ring.elementLen
    modifies ring`head, ring`inserted, ring.buf
    ensures ring.Valid()
    ensures Mirrors(ring, consumers, Next(ring.buflen, ring.elementLen, life, InsertElements(src, count)))
  {
    hide Aligned, Count, Arc, Between, Elements, Longest;
    FreeIsShared(ring, consumers, life);
    ghost var oldest :| oldest in consumers && oldest.tail == ring.oldestTail;
    var n := ring.Insert(src, count);
    assert ring.OnArc(oldest.tail);
  }

  method ConsumeOne(ring: LwsRing, consumers: seq<Consumer>, who: nat, count: nat, ghost life: Life)
    requires ring.Valid() && Mirrors(ring, consumers, life) && who < |consumers|
    modifies ring`oldestTail, ring`destroyed, consumers
    ensures ring.Valid()
    ensures Mirrors(ring, consumers, Next(ring.buflen, ring.elementLen, life, ConsumeElements(who, count)))
  {
    hide Aligned, Count, Arc, Between, Elements;
    ring.ConsumeAndUpdate(consumers[who], count, consumers);
  }

  function Removed<T>(s: seq<T>, k: nat): (r: seq<T>)
    requires k < |s|
    ensures |r| == |s| - 1
  {
    s[..k] + s[k + 1..]
  }

  lemma RemovedAt<T>(s: seq<T>, k: nat)
    requires k < |s|
    ensures forall i :: 0 <= i < |s| - 1 ==> Removed(s, k)[i] == s[if i < k then i else i + 1]
  {
  }

  /** The oldest tail moves on to the slowest consumer of those that are left. */
  method MoveOldest(ring: LwsRing, left: seq<Consumer>)
    requires ring.Valid() && left != [] && ring.Conserved() && forall i :: 0 <= i < |left| ==> ring.OnArc(left[i].tail)
    modifies ring`oldestTail, ring`destroyed
    ensures ring.Valid() && ring.Tracks(left) && ring.Conserved()
  {
    hide Aligned, Count, Arc, Between, Elements;
    var oldest := ring.Slowest(left, left[0].tail);
    ghost var slowest :| slowest in left && slowest.tail == oldest;
    ring.Advance(oldest);
    assert slowest.tail == ring.oldestTail;
  }

  /** A consumer goes away; the oldest tail moves on if it was the slowest one. */
  method RemoveConsumer(ring: LwsRing, consumers: seq<Consumer>, who: nat, ghost life: Life)
    returns (left: seq<Consumer>)
    requires ring.Valid() && Mirrors(ring, consumers, life) && who < |consumers| && |consumers| > 1
    modifies ring`oldestTail, ring`destroyed
    ensures ring.Valid() && Mirrors(ring, left, Next(ring.buflen, ring.elementLen, life, Leave(who)))
    ensures forall i :: 0 <= i < |left| ==> left[i] in consumers
  {
    hide Aligned, Count, Arc, Between, Elements, Removed;
    left := Removed(consumers, who);
    RemovedAt(consumers, who);
    RemovedAt(life.queues, who);
    MoveOldest(ring, left);
    MirrorsLeft(life, who, ring.buflen, ring.elementLen);
  }

  lemma MirrorsLeft(life: Life, who: nat, buflen: nat, elementLen: nat)
    requires elementLen > 0 && who < |life.queues| && |life.queues| > 1
    ensures Next(buflen, elementLen, life, Leave(who)) == life.(queues := Removed(life.queues, who))
  {
  }

  /** One event in the life of a ring. */
  method OneEvent(ring: LwsRing, e: Event, consumers: seq<Consumer>, ghost life: Life) returns (left: seq<Consumer>)
    requires ring.Valid() && Mirrors(ring, consumers, life)
    modifies ring`head, ring`oldestTail, ring`inserted, ring`destroyed, ring.buf, consumers
    ensures ring.Valid() && Mirrors(ring, left, Next(ring.buflen, ring.elementLen, life, e))
    ensures forall i :: 0 <= i < |left| ==> left[i] in consumers
  {
    left := consumers;
    assert |life.queues| == |consumers|;
    hide LwsRing.Valid, Mirrors;
    if Possible(e, ring.elementLen, |consumers|) {
      match e {
        case InsertElements(src, count) =>
          InsertForAll(ring, consumers, src, count, life);
        case ConsumeElements(who, count) =>
          ConsumeOne(ring, consumers, who, count, life);
        case Leave(who) =>
          left := RemoveConsumer(ring, consumers, who, life);
      }
    }
  }

  /** Every consumer starts where the ring starts. */
  method StartAll(consumers: seq<Consumer>, ring: LwsRing)
    requires ring.Valid() && consumers != [] && Distinct(consumers) && ring.oldestTail == ring.head == 0
    requires ring.Conserved() && ring.inserted == [] && ring.Waiting(0) == []
    modifies consumers
    ensures Mirrors(ring, consumers, Born(|consumers|))
  {
    for i := 0 to |consumers|
      invariant forall j :: 0 <= j < i ==> consumers[j].tail == 0
    {
      consumers[i].tail := 0;
    }
    assert consumers[0].tail == 0;
  }

  method LiveOn(ring: LwsRing, consumers: seq<Consumer>, events: seq<Event>, ghost life: Life)
    returns (left: seq<Consumer>)
    requires ring.Valid() && ring.elementLen > 0 && Mirrors(ring, consumers, life)
    modifies ring`head, ring`oldestTail, ring`inserted, ring`destroyed, ring.buf, consumers
    ensures ring.Valid() && Mirrors(ring, left, Lived(ring.buflen, ring.elementLen, life, events))
  {
    hide LwsRing.Valid, Mirrors, Next;
    left := consumers;
    for i := 0 to |events|
      invariant ring.Valid() && Mirrors(ring, left, Lived(ring.buflen, ring.elementLen, life, events[..i]))
      invariant forall j :: 0 <= j < |left| ==> left[j] in consumers
    {
      assert events[..i + 1][..i] == events[..i];
      left := OneEvent(ring, events[i], left, Lived(ring.buflen, ring.elementLen, life, events[..i]));
    }
    assert events[..|events|] == events;
  }

  /**
   * A whole life, from the creation of the ring over any events to its destruction: the elements that are destroyed are
   * exactly those that the model takes in, each once, in the order of their insertion.
   */
  method WholeLife(elementLen: nat, count: nat, consumers: seq<Consumer>, events: seq<Event>) returns (ring: LwsRing)
    requires elementLen > 0 && count > 0 && count * elementLen < 0x8000_0000 && consumers != [] && Distinct(consumers)
    modifies consumers
    ensures fresh(ring)
    ensures ring.destroyed == Lived(count * elementLen, elementLen, Born(|consumers|), events).accepted
  {
    hide LwsRing.Valid;
    ring := new LwsRing(elementLen, count, true);
    StartAll(consumers, ring);
    var left := LiveOn(ring, consumers, events, Born(|consumers|));
    ring.Destroy();
  }

  // ---- the steps of the model, by what they do ----

  /** An insert takes the first elements, as many as fit beside the longest queue, and every consumer sees them. */
  lemma InsertStep(buflen: nat, elementLen: nat, life: Life, src: seq<Byte>, count: nat, longest: nat, n: nat)
    requires elementLen > 0 && |src| == count * elementLen
    requires (forall i :: 0 <= i < |life.queues| ==> |life.queues[i]| <= longest)
    requires if life.queues == [] then longest == 0
             else exists i :: 0 <= i < |life.queues| && |life.queues[i]| == longest
    requires var free := buflen - elementLen - longest;
             n == if free < 2 then 0 else if free / elementLen < count then free / elementLen else count
    ensures n * elementLen <= |src|
    ensures var after := Next(buflen, elementLen, life, InsertElements(src, count));
            && after.accepted == life.accepted + Elements(src[..n * elementLen], elementLen)
            && |after.queues| == |life.queues|
            && forall i :: 0 <= i < |life.queues| ==> after.queues[i] == life.queues[i] + src[..n * elementLen]
  {
    if life.queues != [] {
      var k :| 0 <= k < |life.queues| && |life.queues[k]| == longest;
      LongestIs(life.queues, longest, k);
    }
    SmallerProduct(n, count, elementLen);
    hide Elements, Longest;
    assert Longest(life.queues) == longest by {
      if life.queues == [] {
        NoQueues();
      }
    }
  }

  lemma NoQueues()
    ensures Longest([]) == 0
  {
  }

  /** A consume drops so many elements from the front of one queue, or all there are. */
  lemma ConsumeStep(buflen: nat, elementLen: nat, life: Life, who: nat, count: nat)
    requires elementLen > 0 && who < |life.queues|
    ensures var after, queue := Next(buflen, elementLen, life, ConsumeElements(who, count)), life.queues[who];
            && after.accepted == life.accepted && |after.queues| == |life.queues|
            && (forall i :: 0 <= i < |life.queues| && i != who ==> after.queues[i] == life.queues[i])
            && (count * elementLen <= |queue| ==> after.queues[who] == queue[count * elementLen..])
            && (count * elementLen >= |queue| ==> after.queues[who] == [])
  {
  }

  /** A consumer leaves with its queue, unless it is the last one. */
  lemma LeaveStep(buflen: nat, elementLen: nat, life: Life, who: nat)
    requires elementLen > 0 && who < |life.queues|
    ensures var after := Next(buflen, elementLen, life, Leave(who));
            && after.accepted == life.accepted
            && after.queues == if |life.queues| > 1 then life.queues[..who] + life.queues[who + 1..] else life.queues
  {
  }

  /** The elements of a run of bytes are its parts of equal length. */
  lemma {:induction false} ElementAt(bytes: seq<Byte>, e: nat, n: nat, i: nat)
    requires e > 0 && |bytes| == n * e && i < n
    ensures 0 <= i * e <= i * e + e <= |bytes|
    ensures |Elements(bytes, e)| == n && Elements(bytes, e)[i] == bytes[i * e..i * e + e]
  {
    assert n * e == e + (n - 1) * e;
    if n > 1 {
      ElementAt(bytes[e..], e, n - 1, if i > 0 then i - 1 else 0);
    } else {
      assert Elements(bytes[e..], e) == [];
    }
    if i > 0 {
      assert i * e == e + (i - 1) * e;
      assert bytes[e..][(i - 1) * e..(i - 1) * e + e] == bytes[i * e..i * e + e];
    }
  }

  /** Over a run no event is left out: it starts with empty queues, and the last event is the last step. */
  lemma LivedSteps(buflen: nat, elementLen: nat, consumers: nat, events: seq<Event>, e: Event)
    requires elementLen > 0
    ensures var born := Lived(buflen, elementLen, Born(consumers), []);
            && born.accepted == [] && |born.queues| == consumers
            && forall i :: 0 <= i < consumers ==> born.queues[i] == []
    ensures Lived(buflen, elementLen, Born(consumers), events + [e])
         == Next(buflen, elementLen, Lived(buflen, elementLen, Born(consumers), events), e)
  {
    hide Next;
    assert (events + [e])[..|events|] == events;
  }
}
