/** The buflist of a connection, and the list of the connections that have one. */
module RxFlow {
  import opened Common
  import opened RxStream
  import opened DllList

  class Segment {
    ghost const owner: Buflist
    var next: Segment?
    var pos: nat
    const buf: seq<Byte>

    constructor (ghost owner: Buflist, data: seq<Byte>)
      ensures this.owner == owner && next == null && pos == 0 && buf == data
    {
      this.owner := owner;
      next, pos, buf := null, 0, data;
    }
  }

  /** The pointer to the first segment. */
  class Buflist {
    var head: Segment?
    ghost var chain: seq<Segment>
    /** What is left to read of each segment. */
    ghost var left: Segments

    ghost predicate Valid()
      reads this, chain
    {
      Linked() && (chain != [] ==> Holds(chain[0], left[0]))
    }

    /** A list whose first segment may be used up. */
    ghost predicate Linked()
      reads this, chain
    {
      && (head == if chain == [] then null else chain[0])
      && (forall i {:trigger chain[i].next} :: 0 <= i < |chain| ==>
            chain[i].next == if i + 1 < |chain| then chain[i + 1] else null)
      && (forall i, j :: 0 <= i < j < |chain| ==> chain[i] != chain[j])
      && (forall i {:trigger chain[i].owner} :: 0 <= i < |chain| ==> chain[i].owner == this)
      && |left| == |chain|
      && (forall i :: 1 <= i < |chain| ==> Holds(chain[i], left[i]))
    }

    ghost predicate Holds(s: Segment, rest: seq<Byte>)
      reads s
    {
      s.pos < |s.buf| && rest == s.buf[s.pos..]
    }

    constructor ()
      ensures Valid() && left == [] && chain == []
    {
      head, chain, left := null, [], [];
    }

    /** The walk to the last segment; it gives up when the list is longer than any sane one. */
    method FindLast() returns (last: Segment?, sane: bool)
      requires Valid()
      ensures sane <==> |chain| < SANITY
      ensures sane ==> last == if chain == [] then null else chain[|chain| - 1]
    {
      var sanity: nat := SANITY;
      last, sane := null, true;
      var p := head;
      ghost var i := 0;
      while p != null
        invariant i <= |chain| && sanity == SANITY - i && sanity > 0
        invariant p == if i < |chain| then chain[i] else null
        invariant last == if i > 0 then chain[i - 1] else null
        decreases |chain| - i
      {
        sanity := sanity - 1;
        if sanity == 0 {
          return last, false;
        }
        last := p;
        p := p.next;
        i := i + 1;
      }
    }

    /** Adds a segment at the end; the answer is 1 when it is the first one, and negative when there is none. */
    method AppendSegment(data: seq<Byte>, memory: bool) returns (r: int)
      requires Valid() && data != []
      modifies this, chain
      ensures Valid()
      ensures Append(old(left), data, memory) == if r < 0 then None else Some(left)
      ensures r < 0 ==> left == old(left)
      ensures r == 1 <==> r >= 0 && old(left) == []
      ensures forall i :: 0 <= i < |chain| ==> chain[i] in old(chain) || fresh(chain[i])
    {
      var first := if head == null then 1 else 0;
      var last, sane := FindLast();
      if !sane || !memory {
        return -1;
      }
      var nbuf := new Segment(this, data);
      if last == null {
        head := nbuf;
      } else {
        last.next := nbuf;
      }
      chain := chain + [nbuf];
      left := left + [data];
      return first;
    }

    method DestroySegment() returns (last: bool)
      requires Linked() && chain != []
      modifies this, chain
      ensures Valid() && chain == old(chain)[1..] && left == old(left)[1..]
      ensures last <==> left == []
    {
      var first := head;
      assert head.next == if 1 < |chain| then chain[1] else null;
      head := head.next;
      first.next := null;
      chain := chain[1..];
      left := left[1..];
      last := head == null;
    }

    /** The bytes left in the first segment. */
    method NextSegmentLen() returns (len: nat, token: seq<Byte>)
      requires Valid()
      ensures if left == [] then len == 0 && token == [] else token == left[0] && len == |left[0]| > 0
    {
      if head == null {
        return 0, [];
      }
      assert head == chain[0] && chain[0].pos < |chain[0].buf|;
      return |head.buf| - head.pos, head.buf[head.pos..];
    }

    /** Uses up bytes of the first segment; the answer is what is left in the segment that is now first. */
    method UseSegment(n: nat) returns (r: int)
      requires Valid() && left != [] && 0 < n <= |left[0]|
      modifies this, chain
      ensures Valid() && left == Use(old(left), n)
      ensures r == if left == [] then 0 else |left[0]|
      ensures forall i :: 0 <= i < |chain| ==> chain[i] in old(chain)
    {
      assert chain[0].pos + |left[0]| == |chain[0].buf|;
      head.pos := head.pos + n;
      if head.pos == |head.buf| {
        var last := DestroySegment();
      } else {
        left := [left[0][n..]] + left[1..];
      }
      if head == null {
        return 0;
      }
      assert head == chain[0] && chain[0].pos < |chain[0].buf|;
      return |head.buf| - head.pos;
    }
  }

  /** A connection, as far as it receives. */
  class Connection {
    const buflist: Buflist
    const dllBuflist: Dll

    constructor ()
      ensures fresh(buflist) && fresh(dllBuflist) && dllBuflist.prev == null
      ensures buflist.Valid() && buflist.left == [] && buflist.chain == []
    {
      buflist := new Buflist();
      dllBuflist := new Dll();
    }

    /** The connection is on the list of those with pending bytes exactly when its buflist is not empty. */
    ghost predicate Listed(pending: List)
      reads this, buflist, buflist.chain, pending, dllBuflist
    {
      && buflist.Valid() && pending.Member(dllBuflist)
      && (dllBuflist in pending.chain <==> buflist.left != [])
    }

    /** Another connection of the same thread. */
    ghost predicate Apart(c: Connection) {
      c.buflist != buflist && c.dllBuflist != dllBuflist
    }

    twostate lemma StillListed(pending: List)
      requires old(Listed(pending)) && pending.Valid() && dllBuflist != pending.head
      requires unchanged(buflist) && forall i :: 0 <= i < |buflist.chain| ==> unchanged(buflist.chain[i])
      requires dllBuflist in pending.chain <==> dllBuflist in old(pending.chain)
      requires dllBuflist !in pending.chain ==> unchanged(dllBuflist)
      ensures Listed(pending)
    {
    }

    /** Keeps bytes at the end of the list; the connection joins those with pending bytes. */
    method Keep(pending: List, data: seq<Byte>, memory: bool) returns (r: int)
      requires pending.Valid() && Listed(pending) && data != []
      modifies buflist, buflist.chain, pending, pending.chain, dllBuflist
      ensures pending.Valid() && Listed(pending)
      ensures Append(old(buflist.left), data, memory) == if r < 0 then None else Some(buflist.left)
      ensures r < 0 ==> buflist.left == old(buflist.left)
      ensures forall c: Connection | old(allocated(c)) && old(c.Listed(pending)) && Apart(c) :: c.Listed(pending)
    {
      r := buflist.AppendSegment(data, memory);
      if r > 0 {
        pending.AddFront(dllBuflist);
      }
      forall c: Connection | old(allocated(c)) && old(c.Listed(pending)) && Apart(c)
        ensures c.Listed(pending)
      {
        assert unchanged(c.buflist);
        assert forall i :: 0 <= i < |c.buflist.chain| ==> c.buflist.chain[i].owner == c.buflist;
        c.StillListed(pending);
      }
    }

    /** Uses bytes of the first segment; with the last one used the connection leaves the list. */
    method UseBuffered(pending: List, n: nat)
      requires pending.Valid() && Listed(pending) && buflist.left != [] && 0 < n <= |buflist.left[0]|
      modifies buflist, buflist.chain, pending, pending.chain, dllBuflist
      ensures pending.Valid() && Listed(pending) && buflist.left == Use(old(buflist.left), n)
      ensures forall c: Connection | old(allocated(c)) && old(c.Listed(pending)) && Apart(c) :: c.Listed(pending)
    {
      var m := buflist.UseSegment(n);
      assert buflist.Valid() && (m == 0 <==> buflist.left == []);
      if m == 0 {
        pending.Remove(dllBuflist);
      }
      forall c: Connection | old(allocated(c)) && old(c.Listed(pending)) && Apart(c)
        ensures c.Listed(pending)
      {
        assert unchanged(c.buflist);
        assert forall i :: 0 <= i < |c.buflist.chain| ==> c.buflist.chain[i].owner == c.buflist;
        c.StillListed(pending);
      }
    }

    /** The socket is readable: read it, and give the protocol the oldest bytes there are. */
    method BuflistAwareRead(pending: List, a: Arrival, memory: bool) returns (code: int, ebuf: Tokens)
      requires pending.Valid() && Listed(pending) && a.Valid()
      modifies buflist, buflist.chain, pending, pending.chain, dllBuflist
      ensures pending.Valid() && Listed(pending)
      ensures (code, ebuf, buflist.left) == Read(old(buflist.left), a, memory)
      ensures forall c: Connection | old(allocated(c)) && old(c.Listed(pending)) && Apart(c) :: c.Listed(pending)
    {
      var prior, _ := buflist.NextSegmentLen();
      ebuf := Tokens(a.len, a.data);
      if !(a.len == LWS_SSL_CAPABLE_MORE_SERVICE && prior > 0) {
        if a.len <= 0 || prior == 0 {
          return 0, ebuf;
        }
        var n := Keep(pending, a.data, memory);
        if n < 0 {
          return -1, ebuf;
        }
      }
      var len, token := buflist.NextSegmentLen();
      return 1, Tokens(len, token);
    }

    /** The protocol used so many bytes of what it was given. */
    method BuflistAwareConsume(pending: List, ebuf: Tokens, used: nat, buffered: bool, memory: bool) returns (code: int)
      requires pending.Valid() && Listed(pending) && |ebuf.token| == ebuf.len && used <= ebuf.len
      requires buffered ==> buflist.left != [] && buflist.left[0] == ebuf.token
      modifies buflist, buflist.chain, pending, pending.chain, dllBuflist
      ensures pending.Valid() && Listed(pending)
      ensures (code, buflist.left) == Consume(old(buflist.left), ebuf, used, buffered, memory)
      ensures forall c: Connection | old(allocated(c)) && old(c.Listed(pending)) && Apart(c) :: c.Listed(pending)
    {
      if used == 0 && buffered {
        return 0;
      }
      if used > 0 && buffered {
        UseBuffered(pending, used);
        return 0;
      }
      if used != ebuf.len {
        var m := Keep(pending, ebuf.token[used..], memory);
        if m < 0 {
          return 1;
        }
      }
      return 0;
    }

    /** Keeps the bytes from `n` on for later, unless they lie inside the first segment already. */
    method RxflowCache(pending: List, buf: seq<Byte>, inside: bool, n: nat, memory: bool) returns (r: int)
      requires pending.Valid() && Listed(pending) && n < |buf|
      modifies buflist, buflist.chain, pending, pending.chain, dllBuflist
      ensures pending.Valid() && Listed(pending)
      ensures (r, buflist.left) == Cache(old(buflist.left), buf[n..], inside, memory)
      ensures forall c: Connection | old(allocated(c)) && old(c.Listed(pending)) && Apart(c) :: c.Listed(pending)
    {
      r := 0;
      var blen, _ := buflist.NextSegmentLen();
      if blen > 0 {
        if inside {
          return 1;
        }
        r := 1;
      }
      var m := Keep(pending, buf[n..], memory);
      if m < 0 {
        return -1;
      }
    }
  }
}
