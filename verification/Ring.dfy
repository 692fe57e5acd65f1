/** The multi-tail ring buffer: one head, any number of tails, elements destroyed when the oldest tail passes them. */
module Ring {
  import opened Common
  import opened RingArcs

  /** An object with a tail of its own. */
  class Consumer {
    var tail: nat
  }

  class LwsRing {
    const elementLen: nat
    const buflen: nat
    const buf: array<Byte>
    const destroysElements: bool
    var head: nat
    var oldestTail: nat

    /** The elements handed to the destroy callback so far, and all elements ever inserted. */
    ghost var destroyed: seq<seq<Byte>>
    ghost var inserted: seq<seq<Byte>>

    ghost predicate Valid()
      reads this
    {
      && buf.Length == buflen < 0x8000_0000 && elementLen > 0
      && Aligned(buflen, elementLen) && Position(head) && Position(oldestTail)
    }

    /** A byte position at which an element can start. */
    predicate Position(t: nat)
    {
      t < buflen && Aligned(t, elementLen)
    }

    /** What a tail has still to consume. */
    ghost function Waiting(t: nat): seq<Byte>
      requires Valid() && Position(t)
      reads this, buf
    {
      Arc(buf[..], t, head)
    }

    /** A tail between the oldest tail and the head. */
    ghost predicate OnArc(t: nat)
      requires Valid()
      reads this
    {
      Position(t) && Between(buflen, oldestTail, t, head)
    }

    /** Every inserted element has been destroyed, or is still waiting for the oldest tail. */
    ghost predicate Conserved()
      requires Valid()
      reads this, buf
    {
      destroysElements ==> destroyed + Elements(Waiting(oldestTail), elementLen) == inserted
    }

    ghost function FreeBytes(): int
      requires Valid()
      reads this
    {
      buflen - elementLen - Distance(buflen, oldestTail, head)
    }

    /** The number of elements an insert can take; a single free byte is not reported. */
    ghost function Free(): nat
      requires Valid()
      reads this
    {
      if FreeBytes() < 2 then 0 else Count(FreeBytes(), elementLen)
    }

    constructor (elementLen: nat, count: nat, destroysElements: bool)
      requires elementLen > 0 && count > 0 && count * elementLen < 0x8000_0000
      ensures Valid() && Conserved() && fresh(buf)
      ensures this.elementLen == elementLen && buflen == count * elementLen && this.destroysElements == destroysElements
      ensures inserted == [] && destroyed == [] && Waiting(oldestTail) == [] && head == oldestTail == 0
    {
      MultipleIsAligned(count, elementLen);
      MultipleIsAligned(0, elementLen);
      assert count * elementLen > 0;
      this.elementLen := elementLen;
      this.buflen := count * elementLen;
      this.destroysElements := destroysElements;
      head, oldestTail := 0, 0;
      buf := new Byte[count * elementLen](_ => 0);
      destroyed, inserted := [], [];
    }

    method GetCountFreeElements() returns (n: nat)
      requires Valid()
      ensures n == Free()
    {
      hide Count, Aligned;
      AlignedDistance(buflen, oldestTail, head, elementLen);
      var f: int;
      if head == oldestTail {
        f := buflen - elementLen;
      } else if head < oldestTail {
        f := (oldestTail - head) - elementLen;
      } else {
        f := (buflen - head) + oldestTail - elementLen;
      }
      if f < 2 {
        return 0;
      }
      return Count(f, elementLen);
    }

    method GetCountWaitingElements(tail: nat) returns (n: nat)
      requires Valid() && Position(tail)
      ensures n == Count(|Waiting(tail)|, elementLen)
    {
      var f;
      if head == tail {
        f := 0;
      } else if head > tail {
        f := head - tail;
      } else {
        f := (buflen - tail) + head;
      }
      return Count(f, elementLen);
    }

    /** Free and waiting elements make up all but one slot, except that one free single-byte slot goes unreported. */
    lemma FreePlusWaiting()
      requires Valid()
      ensures Free() + Count(|Waiting(oldestTail)|, elementLen) == Count(buflen, elementLen) - 1
              <==> !(elementLen == 1 && FreeBytes() == 1)
    {
      var w := Distance(buflen, oldestTail, head);
      AlignedDistance(buflen, oldestTail, head, elementLen);
      SlotCount(buflen, w, buflen - elementLen - w, elementLen);
    }
  
    /** The two memcpys of an insert that wraps: up to the end of the buffer, and from its start. */
    method CopyAround(src: seq<Byte>, m: nat)
      requires Valid() && m == buflen - head < |src| < buflen
      modifies buf
      ensures buf[..] == src[m..] + old(buf[|src| - m..head]) + src[..m]
    {
      hide Aligned;
      ghost var before := buf[..];
      CopyBytes(buf, head, src[..m]);
      assert buf[..] == before[..head] + src[..m] + before[buflen..];
      assert buf[..] == before[..head] + src[..m];
      assert buf[|src| - m..] == before[|src| - m..head] + src[..m];
      CopyBytes(buf, 0, src[m..]);
      assert buf[..] == src[m..] + (before[|src| - m..head] + src[..m]);
    }

    /** The one or two memcpys of an insert. */
    method CopyIn(src: seq<Byte>)
      requires Valid() && |src| < buflen
      modifies this`head, buf
      ensures Written(old(buf[..]), buf[..], old(head), src) && head == Ahead(buflen, old(head), |src|)
    {
      hide Aligned, Written;
      ghost var before, start := buf[..], head;
      var rest, n := src, |src|;
      if head + n > buflen {
        var m := buflen - head;
        CopyAround(src, m);
        head := 0;
        rest := src[m..];
        n := n - m;
        WrittenAround(before, buf[..], start, src);
      } else {
        CopyBytes(buf, head, rest);
        WrittenStraight(before, buf[..], start, src);
      }
      AheadIsMod(buflen, head, n);
      head := (head + n) % buflen;
    }

    /** Whole elements that fit are appended to what every tail has waiting. */
    method InsertBytes(src: seq<Byte>)
      requires Valid() && Aligned(|src|, elementLen) && Distance(buflen, oldestTail, head) + |src| < buflen
      modifies this`head, buf
      ensures Valid()
      ensures forall t :: old(OnArc(t)) ==> OnArc(t) && Waiting(t) == old(Waiting(t)) + src
    {
      ghost var before, start := buf[..], head;
      CopyIn(src);
      AlignedAhead(buflen, start, |src|, elementLen);
      forall t | old(OnArc(t)) ensures OnArc(t) && Waiting(t) == old(Waiting(t)) + src {
        WriteAppends(before, buf[..], t, start, src);
        WriteKeepsBetween(buflen, oldestTail, t, start, |src|);
      }
    }

    /** Inserts as many of the elements in `src` as there is room for. */
    method Insert(src: seq<Byte>, maxCount: nat) returns (count: nat)
      requires Valid() && |src| == maxCount * elementLen
      modifies this`head, this`inserted, buf
      ensures Valid() && count == Min(old(Free()), maxCount) && count * elementLen <= |src|
      ensures forall t :: old(OnArc(t)) ==> OnArc(t) && Waiting(t) == old(Waiting(t)) + src[..count * elementLen]
      ensures inserted == old(inserted) + Elements(src[..count * elementLen], elementLen)
      ensures old(Conserved()) ==> Conserved()
    {
      hide Aligned, Count, Elements, Arc;
      AlignedDistance(buflen, oldestTail, head, elementLen);
      var free := GetCountFreeElements();
      var n := free * elementLen;
      if n > maxCount * elementLen {
        n := maxCount * elementLen;
      }
      count := Min(free, maxCount);
      FreeSpace(buflen, Distance(buflen, oldestTail, head), elementLen, free);
      SmallerProduct(free, maxCount, elementLen);
      assert n == count * elementLen;
      var added := src[..n];
      ghost var waiting := Waiting(oldestTail);
      assert OnArc(oldestTail);
      label start:
      InsertBytes(added);
      inserted := inserted + Elements(added, elementLen);
      ElementsAppend(waiting, added, elementLen);
      forall t | old(OnArc(t)) ensures OnArc(t) && Waiting(t) == old(Waiting(t)) + added {
        assert old@start(OnArc(t)) && old@start(Waiting(t)) == old(Waiting(t));
      }
    }
  
    /** The bytes a tail takes with a consume of at most `maxCount` elements. */
    ghost function Taken(t: nat, maxCount: nat): (n: nat)
      requires Valid() && Position(t)
      reads this
      ensures n <= Distance(buflen, t, head) && n <= maxCount * elementLen
    {
      Min(Distance(buflen, t, head), maxCount * elementLen)
    }

    /** The one or two memcpys of a consume. */
    method CopyOut(tail: nat, dest: array<Byte>, size: nat)
      requires Valid() && Position(tail) && size <= Distance(buflen, tail, head)
      requires dest != buf && size <= dest.Length
      modifies dest
      ensures dest[..size] == Waiting(tail)[..size]
    {
      FirstBytes(buf[..], tail, head, size);
      hide Arc, Aligned;
      if tail + size > buflen {
        var m := buflen - tail;
        CopyBytes(dest, 0, buf[tail..]);
        CopyBytes(dest, m, buf[..size - m]);
      } else {
        CopyBytes(dest, 0, buf[tail..tail + size]);
      }
    }

    /** Consumes for one tail, copying out unless there is no destination. */
    method Consume(tail: nat, dest: array?<Byte>, maxCount: nat) returns (count: nat, newTail: nat)
      requires Valid() && Position(tail)
      requires dest != null ==> dest != buf && dest.Length >= Taken(tail, maxCount)
      modifies if dest == null then {} else {dest}
      ensures count == Min(Count(|Waiting(tail)|, elementLen), maxCount)
      ensures var taken := Taken(tail, maxCount);
              && count * elementLen == taken && Position(newTail)
              && Waiting(newTail) == Waiting(tail)[taken..]
              && (dest != null ==> dest[..taken] == Waiting(tail)[..taken])
      ensures OnArc(tail) ==> OnArc(newTail)
    {
      hide Count, Aligned, Arc;
      AlignedDistance(buflen, tail, head, elementLen);
      var waiting := GetCountWaitingElements(tail);
      CountAligned(Distance(buflen, tail, head), elementLen);
      var n := waiting * elementLen;
      if n > maxCount * elementLen {
        n := maxCount * elementLen;
      }
      count := Min(waiting, maxCount);
      SmallerProduct(waiting, maxCount, elementLen);
      assert n == count * elementLen == Taken(tail, maxCount);
      AheadIsMod(buflen, tail, n);
      newTail := (tail + n) % buflen;
      AlignedAhead(buflen, tail, n, elementLen);
      ArcDrop(buf[..], tail, head, n);
      if dest != null {
        CopyOut(tail, dest, n);
      }
    }

    /** The first element waiting for a tail, or nothing. */
    method GetElement(tail: nat) returns (at: int)
      requires Valid() && Position(tail)
      ensures at < 0 <==> Waiting(tail) == []
      ensures at >= 0 ==> at + elementLen <= buflen && |Waiting(tail)| >= elementLen
                          && buf[at..at + elementLen] == Waiting(tail)[..elementLen]
    {
      if tail == head {
        return -1;
      }
      AlignedDistance(buflen, tail, head, elementLen);
      AlignedGap(tail, buflen, elementLen);
      AlignedGap(0, Distance(buflen, tail, head), elementLen);
      at := tail;
    }

    /** Moves the oldest tail on, destroying the elements it passes. */
    method UpdateOldestTail(tail: nat)
      requires Valid() && Position(tail)
      modifies this`oldestTail, this`destroyed
      ensures Valid() && oldestTail == tail
      ensures destroysElements ==>
                destroyed == old(destroyed) + Elements(Arc(buf[..], old(oldestTail), tail), elementLen)
      ensures !destroysElements ==> destroyed == old(destroyed)
    {
      if !destroysElements {
        oldestTail := tail;
        return;
      }
      ghost var start, bytes := destroyed, buf[..];
      ghost var passed := Elements(Arc(bytes, oldestTail, tail), elementLen);
      assert Elements(Arc(bytes, tail, tail), elementLen) == [];
      hide Elements, Arc, Aligned;
      while oldestTail != tail
        invariant Valid() && buf[..] == bytes
        invariant start + passed == destroyed + Elements(Arc(bytes, oldestTail, tail), elementLen)
        decreases Distance(buflen, oldestTail, tail)
      {
        DestroyOldest(tail, bytes);
      }
    }

    /** Destroys the element at the oldest tail, which is not at `tail` yet. */
    method DestroyOldest(tail: nat, ghost bytes: seq<Byte>)
      requires Valid() && Position(tail) && oldestTail != tail && bytes == buf[..]
      modifies this`oldestTail, this`destroyed
      ensures Valid() && Distance(buflen, oldestTail, tail) < Distance(buflen, old(oldestTail), tail)
      ensures destroyed + Elements(Arc(bytes, oldestTail, tail), elementLen)
           == old(destroyed) + Elements(Arc(bytes, old(oldestTail), tail), elementLen)
    {
      hide Elements, Arc, Aligned;
      PassElement(bytes, oldestTail, tail, elementLen);
      AheadIsMod(buflen, oldestTail, elementLen);
      destroyed := destroyed + [buf[oldestTail..oldestTail + elementLen]];
      oldestTail := (oldestTail + elementLen) % buflen;
    }

    /** A tail on the arc can become the oldest one: nothing is lost, and no tail ahead of it is left behind. */
    method Advance(tail: nat)
      requires Valid() && OnArc(tail)
      modifies this`oldestTail, this`destroyed
      ensures Valid() && oldestTail == tail && (old(Conserved()) ==> Conserved())
      ensures forall t :: old(OnArc(t)) && NotBehind(t, tail) ==> OnArc(t)
    {
      hide Elements, Arc, Aligned;
      ghost var start := oldestTail;
      AlignedDistance(buflen, start, tail, elementLen);
      ArcSplit(buf[..], start, tail, head);
      ElementsAppend(Arc(buf[..], start, tail), Waiting(tail), elementLen);
      UpdateOldestTail(tail);
      forall t | old(OnArc(t)) && NotBehind(t, tail) ensures OnArc(t) {
        OldestMoves(buflen, start, tail, t, head);
      }
    }

    /** Consuming with the ring's own single tail. */
    method ConsumeSingle(dest: array?<Byte>, maxCount: nat) returns (count: nat)
      requires Valid()
      requires dest != null ==> dest != buf && dest.Length >= Taken(oldestTail, maxCount)
      modifies this`oldestTail, this`destroyed, if dest == null then {} else {dest}
      ensures Valid() && (old(Conserved()) ==> Conserved())
      ensures count == Min(Count(old(|Waiting(oldestTail)|), elementLen), maxCount)
      ensures var taken := old(Taken(oldestTail, maxCount));
              && count * elementLen == taken
              && Waiting(oldestTail) == old(Waiting(oldestTail))[taken..]
              && (dest != null ==> dest[..taken] == old(Waiting(oldestTail))[..taken])
    {
      assert OnArc(oldestTail);
      hide Aligned, Count, Arc, Between;
      var tail;
      count, tail := Consume(oldestTail, dest, maxCount);
      Advance(tail);
    }

    /** Every consumer's tail lies on the arc, and the slowest of them is the oldest tail. */
    ghost predicate Tracks(consumers: seq<Consumer>)
      requires Valid()
      reads this, consumers
    {
      && (forall c :: c in consumers ==> OnArc(c.tail))
      && exists c :: c in consumers && c.tail == oldestTail
    }

    /** A tail that has no more waiting than another. */
    ghost predicate NotBehind(t: nat, oldest: nat)
      requires Valid()
      reads this
    {
      t < buflen && oldest < buflen && Distance(buflen, t, head) <= Distance(buflen, oldest, head)
    }

    /** The tail of the consumer that has the most waiting. */
    method Slowest(consumers: seq<Consumer>, first: nat) returns (oldest: nat)
      requires Valid() && consumers != [] && forall c :: c in consumers ==> OnArc(c.tail)
      ensures exists c :: c in consumers && c.tail == oldest
      ensures forall c :: c in consumers ==> NotBehind(c.tail, oldest)
    {
      hide Aligned, Count;
      var n := 0;
      oldest := first;
      ghost var slowest := consumers[0];
      for k := 0 to |consumers|
        invariant k == 0 ==> n == 0
        invariant k > 0 ==> slowest in consumers && slowest.tail == oldest
        invariant k > 0 ==> n == Count(Distance(buflen, oldest, head), elementLen)
        invariant forall j :: 0 <= j < k ==> NotBehind(consumers[j].tail, oldest)
      {
        var tail := consumers[k].tail;
        assert OnArc(tail);
        var m := GetCountWaitingElements(tail);
        AlignedDistance(buflen, tail, head, elementLen);
        if k > 0 {
          AlignedDistance(buflen, oldest, head, elementLen);
          MoreElements(Distance(buflen, tail, head), Distance(buflen, oldest, head), elementLen);
        }
        if m >= n {
          n := m;
          oldest := tail;
          slowest := consumers[k];
        }
      }
    }

    /** One consumer of many: its tail moves on, and the oldest tail follows if this was the slowest consumer. */
    method ConsumeAndUpdate(consumer: Consumer, maxCount: nat, consumers: seq<Consumer>)
      requires Valid() && consumer in consumers && Tracks(consumers)
      modifies this`oldestTail, this`destroyed, consumer
      ensures Valid() && Tracks(consumers) && (old(Conserved()) ==> Conserved())
      ensures Waiting(consumer.tail) == old(Waiting(consumer.tail))[old(Taken(consumer.tail, maxCount))..]
    {
      hide Aligned, Count, Arc, Between;
      ghost var others :| others in consumers && others.tail == oldestTail;
      var wasOldest := oldestTail == consumer.tail;
      var count, tail := Consume(consumer.tail, null, maxCount);
      consumer.tail := tail;
      if wasOldest {
        var oldest := Slowest(consumers, tail);
        ghost var slowest :| slowest in consumers && slowest.tail == oldest;
        Advance(oldest);
        assert slowest.tail == oldestTail;
      } else {
        assert others.tail == oldestTail;
      }
    }

    /** The next stretch of free space that can be written without wrapping. */
    method NextLinearInsertRange() returns (none: bool, start: nat, bytes: nat)
      requires Valid()
      ensures none == (Free() == 0)
      ensures !none ==> start == head && 0 < bytes <= Free() * elementLen && head + bytes <= buflen
      ensures !none ==> bytes == Free() * elementLen || head + bytes == buflen
    {
      var free := GetCountFreeElements();
      var n := free * elementLen;
      start, bytes := 0, 0;
      if n == 0 {
        none := true;
        return;
      }
      none, start := false, head;
      if head + n > buflen {
        bytes := buflen - head;
        return;
      }
      bytes := n;
    }

    /** Announces whole elements that were written straight into the free space at the head. */
    method BumpHead(bytes: nat)
      requires Valid() && Aligned(bytes, elementLen) && bytes <= Free() * elementLen && head + bytes <= buflen
      modifies this`head, this`inserted
      ensures Valid() && (old(Conserved()) ==> Conserved())
      ensures forall t :: old(OnArc(t)) ==>
                OnArc(t) && Waiting(t) == old(Waiting(t)) + buf[old(head)..old(head) + bytes]
      ensures inserted == old(inserted) + Elements(buf[old(head)..old(head) + bytes], elementLen)
    {
      hide Aligned, Count, Elements, Written, Arc;
      ghost var start, src, bytesNow := head, buf[head..head + bytes], buf[..];
      AlignedDistance(buflen, oldestTail, head, elementLen);
      FreeSpace(buflen, Distance(buflen, oldestTail, head), elementLen, Free());
      AheadIsMod(buflen, head, bytes);
      head := (head + bytes) % buflen;
      AlignedAhead(buflen, start, bytes, elementLen);
      assert bytesNow == bytesNow[..start] + src + bytesNow[start + bytes..];
      WrittenStraight(bytesNow, bytesNow, start, src);
      forall t | old(OnArc(t)) ensures OnArc(t) && Waiting(t) == old(Waiting(t)) + src {
        WriteAppends(bytesNow, bytesNow, t, start, src);
        WriteKeepsBetween(buflen, oldestTail, t, start, bytes);
      }
      assert old(OnArc(oldestTail));
      inserted := inserted + Elements(src, elementLen);
      ElementsAppend(old(Waiting(oldestTail)), src, elementLen);
    }

    /** Destroys what is left, so that over the whole life every inserted element is destroyed once, in order. */
    method Destroy()
      requires Valid() && Conserved()
      modifies this`oldestTail, this`destroyed
      ensures destroysElements ==> destroyed == inserted
    {
      if destroysElements {
        UpdateOldestTail(head);
      }
    }
  }

  /** More waiting elements means more waiting bytes. */
  lemma MoreElements(x: nat, y: nat, e: nat)
    requires Aligned(x, e) && Aligned(y, e)
    ensures Count(x, e) >= Count(y, e) <==> x >= y
  {
    CountAligned(x, e);
    CountAligned(y, e);
    var p, q := Count(x, e), Count(y, e);
    assert p >= q ==> p * e >= q * e;
    assert p < q ==> p * e < q * e;
  }

  /** Moving the oldest tail on by one element. */
  lemma PassElement(buf: seq<Byte>, oldest: nat, tail: nat, e: nat)
    requires oldest < |buf| && tail < |buf| && oldest != tail
    requires Aligned(|buf|, e) && Aligned(oldest, e) && Aligned(tail, e)
    ensures oldest + e <= |buf| && Aligned(Ahead(|buf|, oldest, e), e)
    ensures Distance(|buf|, Ahead(|buf|, oldest, e), tail) < Distance(|buf|, oldest, tail)
    ensures Elements(Arc(buf, oldest, tail), e)
         == [buf[oldest..oldest + e]] + Elements(Arc(buf, Ahead(|buf|, oldest, e), tail), e)
  {
    MultipleIsAligned(1, e);
    AlignedDistance(|buf|, oldest, tail, e);
    AlignedGap(oldest, |buf|, e);
    AlignedGap(0, Distance(|buf|, oldest, tail), e);
    AlignedAhead(|buf|, oldest, e, e);
    ArcDrop(buf, oldest, tail, e);
    assert Arc(buf, oldest, tail)[..e] == buf[oldest..oldest + e];
  }

  lemma FirstBytes(buf: seq<Byte>, tail: nat, head: nat, size: nat)
    requires tail < |buf| && head < |buf| && size <= Distance(|buf|, tail, head)
    ensures Arc(buf, tail, head)[..size]
         == if tail + size > |buf| then buf[tail..] + buf[..size - (|buf| - tail)] else buf[tail..tail + size]
  {
  }

  method CopyBytes(buf: array<Byte>, at: nat, src: seq<Byte>)
    requires at + |src| <= buf.Length
    modifies buf
    ensures buf[..] == old(buf[..at]) + src + old(buf[at + |src|..])
  {
    for i := 0 to |src|
      invariant forall j :: 0 <= j < buf.Length ==> buf[j] == if at <= j < at + i then src[j - at] else old(buf[j])
    {
      buf[at + i] := src[i];
    }
  }

  lemma SmallerProduct(a: nat, b: nat, e: nat)
    requires e > 0
    ensures Min(a, b) * e == if a * e > b * e then b * e else a * e
    ensures Aligned(Min(a, b) * e, e)
  {
    MultipleIsAligned(Min(a, b), e);
    assert a > b ==> a * e > b * e;
    assert a <= b ==> a * e <= b * e;
  }

  /** Filling the free elements leaves one slot unused. */
  lemma FreeSpace(n: nat, w: nat, e: nat, free: nat)
    requires Aligned(n, e) && Aligned(w, e) && w + e <= n
    requires free == if n - e - w < 2 then 0 else Count(n - e - w, e)
    ensures free * e + w < n
  {
    AlignedSum(n, w, e);
    MultipleIsAligned(1, e);
    AlignedSum(n - w, e, e);
    CountAligned(n - e - w, e);
  }

  lemma SlotCount(n: nat, w: nat, f: nat, e: nat)
    requires Aligned(n, e) && Aligned(w, e) && n == w + f + e
    ensures Count(f, e) + Count(w, e) == Count(n, e) - 1
    ensures f < 2 ==> Count(f, e) == if e == 1 then f else 0
  {
    var p, q := Count(n, e), Count(w, e);
    CountAligned(n, e);
    CountAligned(w, e);
    MultipleIsAligned(p - q - 1, e);
    assert (p - q - 1) * e == f;
  }
}
