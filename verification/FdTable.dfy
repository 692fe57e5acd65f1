/** The table of polled descriptors and its index by descriptor. */
module FdTable {

  const LWS_NO_FDS_POS: int := -1
  const LWS_POLLIN: int := 1

  datatype PollFd = PollFd(fd: int, events: int)

  class Wsi {
    const sockfd: int
    const vhost: int
    var positionInFdsTable: int

    constructor (sockfd: int, vhost: int)
      ensures this.sockfd == sockfd && this.vhost == vhost && positionInFdsTable == LWS_NO_FDS_POS
    {
      this.sockfd, this.vhost, positionInFdsTable := sockfd, vhost, LWS_NO_FDS_POS;
    }
  }

  /** The last element takes up the slot of the one that leaves. */
  function SwapRemove<T>(s: seq<T>, m: nat): (r: seq<T>)
    requires m < |s|
    ensures |r| == |s| - 1
  {
    s[m := s[|s| - 1]][..|s| - 1]
  }

  lemma SwapRemoveKeeps<T>(s: seq<T>, m: nat)
    requires m < |s|
    ensures multiset(SwapRemove(s, m)) + multiset{s[m]} == multiset(s)
  {
    var last := s[|s| - 1];
    assert s == s[..|s| - 1] + [last];
    if m < |s| - 1 {
      assert s[m := last][..|s| - 1] == s[..|s| - 1][m := last];
    } else {
      assert s[m := last][..|s| - 1] == s[..|s| - 1];
    }
  }

  lemma SwapRemoveMembers<T>(s: seq<T>, m: nat)
    requires m < |s|
    ensures forall i :: 0 <= i < |s| - 1 ==> SwapRemove(s, m)[i] == if i == m then s[|s| - 1] else s[i]
    ensures forall i :: 0 <= i < |s| - 1 ==> SwapRemove(s, m)[i] in s
    ensures forall x :: x in s && x != s[m] ==> x in SwapRemove(s, m)
  {
    forall x | x in s && x != s[m]
      ensures x in SwapRemove(s, m)
    {
      var i :| 0 <= i < |s| && s[i] == x;
      assert SwapRemove(s, m)[if i == |s| - 1 then m else i] == x;
    }
  }

  lemma OneClosed<T>(all: seq<T>, s: seq<T>, m: nat, closed: seq<T>)
    requires m < |s| && multiset(s) + multiset(closed) == multiset(all)
    ensures multiset(SwapRemove(s, m)) + multiset(closed + [s[m]]) == multiset(all)
    ensures forall i :: 0 <= i < m && i < |s| - 1 ==> SwapRemove(s, m)[i] == s[i]
    ensures forall x :: x in SwapRemove(s, m) ==> x in s
  {
    SwapRemoveKeeps(s, m);
    SwapRemoveMembers(s, m);
  }

  class PerThread {
    const fds: array<PollFd>
    var fdsCount: nat
    /** The descriptor's connection. */
    var lookup: map<int, Wsi>
    const fdLimit: nat
    const maxFds: int
    const socketOffset: int

    /** The connection of each slot in use. */
    ghost var slots: seq<Wsi>

    /** Every slot's descriptor leads to a connection that knows the slot, and there are no other connections. */
    ghost predicate Valid()
      reads this, fds, slots
    {
      && |slots| == fdsCount <= fdLimit <= fds.Length
      && (forall i :: 0 <= i < fdsCount ==> fds[i].fd == slots[i].sockfd && slots[i].positionInFdsTable == i)
      && (forall i :: 0 <= i < fdsCount ==> fds[i].fd in lookup && lookup[fds[i].fd] == slots[i])
      && (forall i :: 0 <= i < fdsCount ==> slots[i].sockfd - socketOffset < maxFds)
      && (forall fd :: fd in lookup ==> lookup[fd] in slots && lookup[fd].sockfd == fd)
    }

    constructor (fdLimit: nat, maxFds: int, socketOffset: int)
      ensures Valid() && slots == [] && fresh(fds)
      ensures this.fdLimit == fdLimit && this.maxFds == maxFds && this.socketOffset == socketOffset
    {
      fds := new PollFd[fdLimit](_ => PollFd(0, 0));
      fdsCount, lookup, slots := 0, map[], [];
      this.fdLimit, this.maxFds, this.socketOffset := fdLimit, maxFds, socketOffset;
    }

    /** No descriptor is in two slots, and the index finds the slot. */
    lemma NoFdTwice(i: nat, j: nat)
      requires Valid() && i < fdsCount && j < fdsCount && fds[i].fd == fds[j].fd
      ensures i == j && lookup[fds[i].fd].positionInFdsTable == i
    {
    }

    method InsertWsiSocketIntoFds(wsi: Wsi) returns (r: int)
      requires Valid() && wsi !in slots && wsi.sockfd !in lookup && wsi.positionInFdsTable == LWS_NO_FDS_POS
      modifies this`fdsCount, this`lookup, this`slots, fds, wsi
      ensures Valid()
      ensures r == if old(fdsCount) >= fdLimit || wsi.sockfd - socketOffset >= maxFds then 1 else 0
      ensures slots == if r == 0 then old(slots) + [wsi] else old(slots)
      ensures r == 0 ==> fds[..fdsCount] == old(fds[..fdsCount]) + [PollFd(wsi.sockfd, LWS_POLLIN)]
      ensures r != 0 ==> fds[..fdsCount] == old(fds[..fdsCount]) && lookup == old(lookup)
    {
      if fdsCount >= fdLimit {
        return 1;
      }
      if wsi.sockfd - socketOffset >= maxFds {
        return 1;
      }
      lookup := lookup[wsi.sockfd := wsi];
      wsi.positionInFdsTable := fdsCount;
      fds[wsi.positionInFdsTable] := PollFd(wsi.sockfd, LWS_POLLIN);
      fdsCount := fdsCount + 1;
      slots := slots + [wsi];
      return 0;
    }

    /** The platform hook frees the last slot. */
    method RemoveWsiSocketFromFds(wsi: Wsi) returns (r: int)
      requires Valid() && (wsi in slots || wsi.positionInFdsTable == LWS_NO_FDS_POS)
      modifies this`fdsCount, this`lookup, this`slots, fds, wsi, slots
      ensures Valid() && wsi !in slots && wsi.positionInFdsTable == LWS_NO_FDS_POS
      ensures old(wsi in slots) ==>
                var m := old(wsi.positionInFdsTable);
                && r == 0 && slots == SwapRemove(old(slots), m)
                && fds[..fdsCount] == SwapRemove(old(fds[..fdsCount]), m)
                && lookup == old(lookup) - {wsi.sockfd}
      ensures old(wsi !in slots) ==>
                slots == old(slots) && fds[..] == old(fds[..]) && lookup == old(lookup)
    {
      if wsi.sockfd - socketOffset > maxFds {
        return 1;
      }
      var m := wsi.positionInFdsTable;
      if m != LWS_NO_FDS_POS {
        Vacate(wsi, m);
      }
      return 0;
    }

    /** The last connection takes up the slot of the one that leaves. */
    method Vacate(wsi: Wsi, m: nat)
      requires Valid() && m < fdsCount && slots[m] == wsi
      modifies this`fdsCount, this`lookup, this`slots, fds, wsi, slots
      ensures Valid() && wsi !in slots && wsi.positionInFdsTable == LWS_NO_FDS_POS
      ensures slots == SwapRemove(old(slots), m)
      ensures fds[..fdsCount] == SwapRemove(old(fds[..fdsCount]), m)
      ensures lookup == old(lookup) - {wsi.sockfd}
    {
      hide SwapRemove;
      ghost var before := fds[..fdsCount];
      SwapRemoveMembers(slots, m);
      SwapRemoveMembers(before, m);
      fds[m] := fds[fdsCount - 1];
      fdsCount := fdsCount - 1;
      var v := fds[m].fd;
      if v in lookup {
        lookup[v].positionInFdsTable := m;
      }
      lookup := lookup - {wsi.sockfd};
      wsi.positionInFdsTable := LWS_NO_FDS_POS;
      slots := SwapRemove(slots, m);
      assert fds[..fdsCount] == SwapRemove(before, m);
    }

    /** Closes the connection of slot `n` if it belongs to the vhost; closing takes it out of the table. */
    method CloseAt(n: nat, v: int) returns (hit: bool, ghost wsi: Wsi)
      requires Valid() && n < fdsCount
      modifies this`fdsCount, this`lookup, this`slots, fds, slots
      ensures Valid() && wsi == old(slots[n]) && fdsCount == |slots|
      ensures hit == (wsi.vhost == v)
      ensures !hit ==> slots == old(slots)
      ensures hit ==> slots == SwapRemove(old(slots), n) && wsi !in slots && wsi.positionInFdsTable == LWS_NO_FDS_POS
    {
      wsi, hit := slots[n], false;
      var fd := fds[n].fd;
      if fd in lookup && lookup[fd].vhost == v {
        var r := RemoveWsiSocketFromFds(lookup[fd]);
        hit := true;
      }
    }

    /** These connections of the vhost were closed, and the others of the table `all` are still there. */
    ghost predicate Closed(closed: seq<Wsi>, all: seq<Wsi>, v: int)
      reads this, closed
    {
      && multiset(slots) + multiset(closed) == multiset(all)
      && (forall w :: w in slots ==> w in all)
      && (forall i :: 0 <= i < |closed| ==>
            closed[i].vhost == v && closed[i].positionInFdsTable == LWS_NO_FDS_POS && closed[i] !in slots)
    }

    method CloseOne(n: nat, v: int, ghost closed: seq<Wsi>, ghost all: seq<Wsi>)
      returns (hit: bool, ghost closed': seq<Wsi>)
      requires Valid() && n < fdsCount && Closed(closed, all, v)
      modifies this`fdsCount, this`lookup, this`slots, fds, slots
      ensures Valid() && fdsCount == |slots| && Closed(closed', all, v)
      ensures hit == (old(slots[n]).vhost == v)
      ensures |slots| == if hit then old(|slots|) - 1 else old(|slots|)
      ensures forall i :: 0 <= i < |slots| && i < (if hit then n else n + 1) ==> slots[i] == old(slots)[i]
    {
      ghost var before := slots;
      assert fdsCount == |slots|;
      hide Valid, SwapRemove;
      ghost var wsi;
      hit, wsi := CloseAt(n, v);
      closed' := closed;
      if hit {
        OneClosed(all, before, n, closed);
        closed' := closed + [wsi];
      }
    }

    /** Closes the connections of a vhost that is being destroyed: all of them, each once, and no other. */
    method CloseVhost(v: int) returns (ghost closed: seq<Wsi>)
      requires Valid()
      modifies this`fdsCount, this`lookup, this`slots, fds, slots
      ensures Valid()
      ensures Closed(closed, old(slots), v)
      ensures forall i :: 0 <= i < |slots| ==> slots[i].vhost != v
    {
      closed := [];
      assert Closed(closed, slots, v);
      closed := CloseFrom(v, slots);
    }

    /** The loop stays at a slot that another connection has just taken up. */
    method CloseFrom(v: int, ghost all: seq<Wsi>) returns (ghost closed: seq<Wsi>)
      requires Valid() && Closed([], all, v)
      modifies this`fdsCount, this`lookup, this`slots, fds, all
      ensures Valid()
      ensures Closed(closed, all, v)
      ensures forall i :: 0 <= i < |slots| ==> slots[i].vhost != v
    {
      closed := [];
      var n := 0;
      assert fdsCount == |slots|;
      hide Valid, SwapRemove;
      while n < fdsCount
        invariant Valid() && 0 <= n <= fdsCount == |slots| && Closed(closed, all, v)
        invariant forall i :: 0 <= i < n ==> slots[i].vhost != v
        decreases fdsCount - n
      {
        var hit;
        hit, closed := CloseOne(n, v, closed, all);
        if hit {
          n := n - 1;
        }
        n := n + 1;
      }
    }
  }
}
