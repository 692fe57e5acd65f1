/** The list of pending timers: sorted by deadline, each connection on it at most once. */
module Timers {
  import opened DllList

  const LWS_SET_TIMER_USEC_CANCEL: int := -1
  function Max(a: int, b: int): int {
    if a < b then b else a
  }

  const LWS_HRTIMER_NOWAIT: int := 0x7fff_ffff_ffff_ffff

  /** The deadline of every connection that ever armed a timer, by its embedded node. */
  type Deadlines = map<Dll, int>

  /** The earliest deadline comes first. */
  predicate Sorted(nodes: seq<Dll>, due: Deadlines) {
    && (forall n :: n in nodes ==> n in due)
    && forall i, j :: 0 <= i < j < |nodes| ==> due[nodes[i]] <= due[nodes[j]]
  }

  /** The place of a deadline in a sorted list: in front of the first one that is not earlier. */
  predicate PlaceOf(nodes: seq<Dll>, due: Deadlines, k: nat, t: int) {
    && k <= |nodes| && (forall n :: n in nodes ==> n in due)
    && (forall i :: 0 <= i < k ==> due[nodes[i]] < t)
    && (forall i :: k <= i < |nodes| ==> t <= due[nodes[i]])
  }

  function Inserted(nodes: seq<Dll>, k: nat, d: Dll): seq<Dll>
    requires k <= |nodes|
  {
    nodes[..k] + [d] + nodes[k..]
  }

  lemma WithoutSorted(nodes: seq<Dll>, d: Dll, due: Deadlines)
    requires Sorted(nodes, due)
    ensures Sorted(Without(nodes, d), due)
  {
    if d in nodes {
      var k := FirstIndex(nodes, d);
      WithoutAt(nodes, d, k);
      PartSorted(nodes, k, due);
    } else {
      WithoutNothing(nodes, d);
    }
  }

  lemma PartSorted(nodes: seq<Dll>, k: nat, due: Deadlines)
    requires Sorted(nodes, due) && k < |nodes|
    ensures Sorted(nodes[..k] + nodes[k + 1..], due)
  {
  }

  lemma PlacedSorted(rest: seq<Dll>, due: Deadlines, k: nat, d: Dll)
    requires Sorted(rest, due) && d in due && PlaceOf(rest, due, k, due[d])
    ensures Sorted(Inserted(rest, k, d), due)
  {
  }

  /** What stands in front of a new timer is earlier, and what stands behind it is not. */
  lemma PlacedAt(rest: seq<Dll>, due: Deadlines, k: nat, d: Dll)
    requires d in due && PlaceOf(rest, due, k, due[d])
    ensures var nodes := Inserted(rest, k, d);
            && k < |nodes| && nodes[k] == d && nodes[..k] + nodes[k + 1..] == rest
            && (forall i :: 0 <= i < |nodes| ==> nodes[i] in due)
            && (forall i :: 0 <= i < k ==> due[nodes[i]] < due[d])
            && (forall i :: k < i < |nodes| ==> due[nodes[i]] >= due[d])
  {
  }

  lemma OtherDeadline(nodes: seq<Dll>, due: Deadlines, d: Dll, t: int)
    requires Sorted(nodes, due) && d !in nodes
    ensures Sorted(nodes, due[d := t])
  {
  }

  /** What the timer callback of a connection does with its own timer: the clock it sees and the delay it asks for. */
  type Rearming = map<Dll, (int, int)>

  predicate Rearms(rearm: Rearming, n: Dll) {
    n in rearm && rearm[n].1 != LWS_SET_TIMER_USEC_CANCEL
  }

  /** `k` is the length of the expired prefix. */
  predicate Expired(nodes: seq<Dll>, due: Deadlines, t: int, k: nat) {
    && k <= |nodes| && (forall n :: n in nodes ==> n in due)
    && (forall i :: 0 <= i < k ==> due[nodes[i]] <= t)
    && (forall i :: k <= i < |nodes| ==> due[nodes[i]] > t)
  }

  /** A connection is on the list if it was and has not fired, or has fired and re-armed itself. */
  predicate StillArmed(before: seq<Dll>, fired: nat, rearm: Rearming, nodes: seq<Dll>)
    requires fired <= |before|
  {
    && (forall n :: n in nodes ==> n in before[fired..] || (n in before[..fired] && Rearms(rearm, n)))
    && (forall n :: n in before[fired..] ==> n in nodes)
    && (forall n :: n in before[..fired] && Rearms(rearm, n) ==> n in nodes)
  }

  /** Only the deadlines of connections that fired and re-armed themselves have changed. */
  predicate DeadlinesAfter(before: seq<Dll>, due0: Deadlines, fired: nat, rearm: Rearming, due: Deadlines)
    requires fired <= |before|
  {
    && due.Keys == due0.Keys
    && forall n :: n in due ==>
         due[n] == if n in before[..fired] && Rearms(rearm, n) then rearm[n].0 + rearm[n].1 else due0[n]
  }

  ghost predicate Distinct<T>(s: seq<T>) {
    forall i, j :: 0 <= i < j < |s| ==> s[i] != s[j]
  }

  /** Cancelling the first of the expired connections leaves the others in front. */
  lemma CancelFirst(nodes: seq<Dll>, due: Deadlines, t: int, k: nat)
    requires Sorted(nodes, due) && Expired(nodes, due, t, k) && 0 < k
    ensures Without(nodes, nodes[0]) == nodes[1..]
    ensures Sorted(nodes[1..], due) && Expired(nodes[1..], due, t, k - 1)
  {
  }

  /** A timer armed in the future goes behind every expired one. */
  lemma ArmFuture(nodes: seq<Dll>, due: Deadlines, t: int, k: nat, d: Dll, at: nat)
    requires Expired(nodes, due, t, k) && d in due && due[d] > t && PlaceOf(nodes, due, at, due[d])
    ensures k <= at && Expired(Inserted(nodes, at, d), due, t, k)
    ensures Inserted(nodes, at, d)[..k] == nodes[..k]
    ensures forall n :: n in Inserted(nodes, at, d) <==> n in nodes || n == d
  {
    assert k == 0 || due[nodes[k - 1]] <= t;
    assert nodes == nodes[..at] + nodes[at..];
  }

  /** The state of a service run in which the first `i` of `m` expired timers have fired. */
  ghost predicate Progress(before: seq<Dll>, due0: Deadlines, t: int, rearm: Rearming, m: nat, i: nat,
                           nodes: seq<Dll>, due: Deadlines) {
    && Distinct(before) && Expired(before, due0, t, m) && i <= m
    && Sorted(nodes, due) && Expired(nodes, due, t, m - i) && nodes[..m - i] == before[i..m]
    && StillArmed(before, i, rearm, nodes) && DeadlinesAfter(before, due0, i, rearm, due)
  }

  /** Every callback that re-arms its own timer asks for a time in the future. */
  predicate InTheFuture(rearm: Rearming, t: int) {
    forall n :: n in rearm && Rearms(rearm, n) ==> rearm[n].0 + rearm[n].1 > t
  }

  lemma NextFired(before: seq<Dll>, due0: Deadlines, t: int, rearm: Rearming, m: nat, i: nat, nodes: seq<Dll>,
                  due: Deadlines)
    requires Progress(before, due0, t, rearm, m, i, nodes, due) && i < m
    ensures nodes != [] && nodes[0] == before[i] && nodes[0] !in nodes[1..] && due[nodes[0]] <= t
  {
    assert nodes[..m - i][0] == before[i..m][0];
    forall k | 1 <= k < |nodes| ensures nodes[k] != nodes[0] {
      if k < m - i {
        assert nodes[..m - i][k] == before[i..m][k];
      }
    }
  }

  lemma SplitFired(before: seq<Dll>, i: nat)
    requires Distinct(before) && i < |before|
    ensures before[..i + 1] == before[..i] + [before[i]] && before[i] !in before[..i]
    ensures before[i..] == [before[i]] + before[i + 1..] && before[i] !in before[i + 1..]
  {
  }

  /** Membership after one more timer has fired: `nodes` before, `after` once the callback has returned. */
  lemma ArmedAfter(before: seq<Dll>, i: nat, rearm: Rearming, nodes: seq<Dll>, after: seq<Dll>)
    requires Distinct(before) && i < |before| && StillArmed(before, i, rearm, nodes)
    requires forall n :: n in after ==> n in nodes
    requires forall n :: n in nodes && n != before[i] ==> n in after
    requires before[i] in after <==> Rearms(rearm, before[i])
    ensures StillArmed(before, i + 1, rearm, after)
  {
    SplitFired(before, i);
  }

  lemma DeadlinesStep(before: seq<Dll>, due0: Deadlines, i: nat, rearm: Rearming, due: Deadlines)
    requires Distinct(before) && i < |before| && before[i] in due && DeadlinesAfter(before, due0, i, rearm, due)
    ensures !Rearms(rearm, before[i]) ==> DeadlinesAfter(before, due0, i + 1, rearm, due)
    ensures Rearms(rearm, before[i]) ==>
              DeadlinesAfter(before, due0, i + 1, rearm, due[before[i] := rearm[before[i]].0 + rearm[before[i]].1])
  {
    SplitFired(before, i);
  }

  lemma NotRearmed(before: seq<Dll>, due0: Deadlines, t: int, rearm: Rearming, m: nat, i: nat, nodes: seq<Dll>,
                   due: Deadlines)
    requires Progress(before, due0, t, rearm, m, i, nodes, due) && i < m && !Rearms(rearm, before[i])
    ensures nodes != [] && Without(nodes, before[i]) == nodes[1..]
    ensures Progress(before, due0, t, rearm, m, i + 1, nodes[1..], due)
  {
    hide StillArmed, DeadlinesAfter;
    NextFired(before, due0, t, rearm, m, i, nodes, due);
    CancelFirst(nodes, due, t, m - i);
    assert nodes[1..][..m - i - 1] == nodes[..m - i][1..];
    hide Expired, Sorted;
    assert nodes == [nodes[0]] + nodes[1..];
    ArmedAfter(before, i, rearm, nodes, nodes[1..]);
    DeadlinesStep(before, due0, i, rearm, due);
  }

  /** Changing the deadline of a connection that is not on the list. */
  lemma ExpiredOther(nodes: seq<Dll>, due: Deadlines, t: int, k: nat, d: Dll, x: int)
    requires Expired(nodes, due, t, k) && d !in nodes
    ensures Expired(nodes, due[d := x], t, k)
  {
  }

  lemma Rearmed(before: seq<Dll>, due0: Deadlines, t: int, rearm: Rearming, m: nat, i: nat, nodes: seq<Dll>,
                due: Deadlines,
                at: nat, due2: Deadlines)
    requires Progress(before, due0, t, rearm, m, i, nodes, due) && i < m && Rearms(rearm, before[i])
    requires InTheFuture(rearm, t)
    requires due2 == due[before[i] := rearm[before[i]].0 + rearm[before[i]].1]
    requires nodes != [] && PlaceOf(nodes[1..], due2, at, due2[before[i]])
    ensures Progress(before, due0, t, rearm, m, i + 1, Inserted(nodes[1..], at, before[i]), due2)
  {
    hide StillArmed, DeadlinesAfter;
    var d, rest := before[i], nodes[1..];
    NextFired(before, due0, t, rearm, m, i, nodes, due);
    CancelFirst(nodes, due, t, m - i);
    assert rest[..m - i - 1] == nodes[..m - i][1..];
    hide Expired, Sorted, PlaceOf, Inserted;
    OtherDeadline(rest, due, d, due2[d]);
    ExpiredOther(rest, due, t, m - i - 1, d, due2[d]);
    ArmFuture(rest, due2, t, m - i - 1, d, at);
    PlacedSorted(rest, due2, at, d);
    assert nodes == [nodes[0]] + rest;
    ArmedAfter(before, i, rearm, nodes, Inserted(rest, at, d));
    DeadlinesStep(before, due0, i, rearm, due);
  }

  /** The successor saved before a callback runs is still right after it. */
  lemma SavedNext(before: seq<Dll>, due0: Deadlines, t: int, rearm: Rearming, m: nat, i: nat,
                  nodes: seq<Dll>, due: Deadlines, nodes2: seq<Dll>, due2: Deadlines)
    requires i < m && Progress(before, due0, t, rearm, m, i, nodes, due)
    requires Progress(before, due0, t, rearm, m, i + 1, nodes2, due2)
    ensures |nodes| > 1 ==> nodes[1] in nodes2
    ensures i + 1 < m ==> |nodes| > 1 && nodes2 != [] && nodes[1] == nodes2[0]
  {
    hide DeadlinesAfter, Sorted;
    NextFired(before, due0, t, rearm, m, i, nodes, due);
    SplitFired(before, i);
    if i + 1 < m {
      assert nodes[..m - i][1] == before[i..m][1];
      assert nodes2[..m - i - 1][0] == before[i + 1..m][0];
    }
    assert |nodes| > 1 ==> nodes[1] in nodes && nodes[1] in nodes[1..];
  }

  lemma ExpiredPrefix(nodes: seq<Dll>, due: Deadlines, t: int) returns (m: nat)
    requires Sorted(nodes, due)
    ensures Expired(nodes, due, t, m)
  {
    m := 0;
    while m < |nodes| && due[nodes[m]] <= t
      invariant m <= |nodes| && forall i :: 0 <= i < m ==> due[nodes[i]] <= t
    {
      m := m + 1;
    }
  }

  /** Where the service loop stands: at the first expired timer, or at one in the future, or at the end. */
  predicate Cursor(d: Dll?, nodes: seq<Dll>, left: nat) {
    && (d == null ==> left == 0) && (d != null ==> d in nodes)
    && (left > 0 ==> nodes != [] && d == nodes[0])
  }

  lemma CursorStops(before: seq<Dll>, due0: Deadlines, t: int, rearm: Rearming, m: nat, i: nat, nodes: seq<Dll>,
                    due: Deadlines, d: Dll)
    requires Progress(before, due0, t, rearm, m, i, nodes, due) && Cursor(d, nodes, m - i)
    ensures d in due && (due[d] > t <==> i == m)
    ensures i < m ==> nodes != [] && d == nodes[0] && d == before[i]
  {
    hide StillArmed, DeadlinesAfter;
    if i < m {
      NextFired(before, due0, t, rearm, m, i, nodes, due);
    }
  }

  /** What the state at the end of the loop says. */
  lemma ServiceDone(before: seq<Dll>, due0: Deadlines, t: int, rearm: Rearming, m: nat, nodes: seq<Dll>, due: Deadlines)
    requires Progress(before, due0, t, rearm, m, m, nodes, due)
    ensures Expired(before, due0, t, m) && StillArmed(before, m, rearm, nodes)
    ensures DeadlinesAfter(before, due0, m, rearm, due)
    ensures forall n :: n in nodes ==> n in due && due[n] > t
  {
    hide StillArmed, DeadlinesAfter;
  }

  /** What a service run leaves behind, timer by timer. */
  lemma ServiceMeans(before: seq<Dll>, due0: Deadlines, t: int, rearm: Rearming, m: nat, nodes: seq<Dll>,
                     due: Deadlines)
    requires Distinct(before) && Expired(before, due0, t, m) && StillArmed(before, m, rearm, nodes)
    requires DeadlinesAfter(before, due0, m, rearm, due) && Sorted(nodes, due)
    ensures m <= |before|
    ensures forall i :: 0 <= i < |before| ==> before[i] in due0 && (due0[before[i]] <= t <==> i < m)
    ensures forall i :: 0 <= i < m ==>
              var n := before[i];
              if n in rearm && rearm[n].1 != -1 then n in nodes && n in due && due[n] == rearm[n].0 + rearm[n].1
              else n !in nodes
    ensures forall i :: m <= i < |before| ==>
              before[i] in nodes && before[i] in due && due[before[i]] == due0[before[i]]
    ensures forall n :: n in nodes ==> n in before
    ensures forall i, j :: 0 <= i < j < |nodes| ==> nodes[i] in due && nodes[j] in due && due[nodes[i]] <= due[nodes[j]]
  {
    forall i | m <= i < |before| ensures before[i] in before[m..] && before[i] !in before[..m] {
      assert before[m..][i - m] == before[i];
    }
    forall i | 0 <= i < m ensures before[i] in before[..m] && before[i] !in before[m..] {
      assert before[..m][i] == before[i];
    }
  }

  lemma ServiceStarts(before: seq<Dll>, due0: Deadlines, t: int, rearm: Rearming, m: nat)
    requires Distinct(before) && Sorted(before, due0) && Expired(before, due0, t, m)
    ensures Progress(before, due0, t, rearm, m, 0, before, due0)
  {
    assert before[0..] == before && before[..0] == [];
  }

  lemma CursorEnds(nodes: seq<Dll>, left: nat)
    requires Cursor(null, nodes, left)
    ensures left == 0
  {
  }

  class TimerList {
    const list: List
    var pendingTimer: Deadlines

    ghost predicate Valid()
      reads this, list, list.chain
    {
      list.Valid() && Sorted(list.Nodes(), pendingTimer)
    }

    constructor ()
      ensures Valid() && list.Nodes() == [] && fresh(list) && fresh(list.chain)
    {
      list := new List();
      pendingTimer := map[];
    }

    /** Where the sorted insertion stops: at the first node that is not earlier, or behind the last one. */
    method FindPlace(t: int) returns (dd: Dll, bef: bool, ghost k: nat)
      requires Valid()
      ensures PlaceOf(list.Nodes(), pendingTimer, k, t)
      ensures bef == (k < |list.Nodes()|) && dd == list.chain[if bef then k + 1 else k]
      ensures bef ==> dd in list.Nodes() && pendingTimer[dd] >= t
      ensures !bef ==> dd == list.chain[|list.chain| - 1] && forall n :: n in list.Nodes() ==> pendingTimer[n] < t
    {
      ghost var nodes := list.Nodes();
      dd, bef, k := list.head, false, 0;
      var d := list.head.next;
      assert |list.chain| > 1 ==> d == list.chain[1];
      while d != null
        invariant k <= |nodes|
        invariant d == if k < |nodes| then nodes[k] else null
        invariant dd == list.chain[k]
        invariant forall i :: 0 <= i < k ==> pendingTimer[nodes[i]] < t
        decreases |nodes| - k
      {
        dd := d;
        if pendingTimer[d] >= t {
          bef := true;
          break;
        }
        d := d.next;
        k := k + 1;
      }
    }

    /** Links a connection with a new deadline into the list. */
    method InsertSorted(d: Dll) returns (ghost k: nat)
      requires Valid() && d != list.head && d !in list.chain && d in pendingTimer
      modifies list, list.chain, d
      ensures Valid() && list.Member(d) && d.prev != null
      ensures PlaceOf(old(list.Nodes()), pendingTimer, k, pendingTimer[d])
      ensures list.Nodes() == Inserted(old(list.Nodes()), k, d)
      ensures forall n :: n in list.chain ==> n in old(list.chain) || n == d
    {
      ghost var rest := list.Nodes();
      hide List.Valid;
      var dd, bef;
      dd, bef, k := FindPlace(pendingTimer[d]);
      PlacedSorted(rest, pendingTimer, k, d);
      list.LinkAt(dd, bef, d, k);
    }

    /** Arms, re-arms or cancels the timer of a connection. */
    method SetTimerUsecs(d: Dll, now: int, usecs: int) returns (ghost k: nat)
      requires Valid() && list.Member(d)
      modifies this`pendingTimer, list, list.chain, d
      ensures Valid() && list.chain != [] && list.Member(d)
      ensures usecs == LWS_SET_TIMER_USEC_CANCEL ==>
                && d.prev == null && pendingTimer == old(pendingTimer)
                && list.Nodes() == Without(old(list.Nodes()), d)
      ensures usecs != LWS_SET_TIMER_USEC_CANCEL ==>
                && pendingTimer == old(pendingTimer)[d := now + usecs]
                && var rest := Without(old(list.Nodes()), d);
                   PlaceOf(rest, pendingTimer, k, now + usecs) && list.Nodes() == Inserted(rest, k, d)
      ensures forall n :: n in list.chain ==> n in old(list.chain) || n == d
      ensures usecs != -1 ==>
                && k < |list.Nodes()| && list.Nodes()[k] == d && d in pendingTimer && pendingTimer[d] == now + usecs
                && (forall i :: 0 <= i < |list.Nodes()| ==> list.Nodes()[i] in pendingTimer)
                && (forall i :: 0 <= i < k ==> pendingTimer[list.Nodes()[i]] < now + usecs)
                && (forall i :: k < i < |list.Nodes()| ==> pendingTimer[list.Nodes()[i]] >= now + usecs)
                && list.Nodes()[..k] + list.Nodes()[k + 1..] == Without(old(list.Nodes()), d)
      ensures usecs == -1 ==> d !in list.Nodes()
    {
      hide Sorted, PlaceOf, Inserted, Without;
      k := 0;
      WithoutSorted(list.Nodes(), d, pendingTimer);
      list.Remove(d);
      hide List.Valid;
      if usecs == LWS_SET_TIMER_USEC_CANCEL {
        return;
      }
      OtherDeadline(list.Nodes(), pendingTimer, d, now + usecs);
      pendingTimer := pendingTimer[d := now + usecs];
      assert forall i :: 0 <= i < |list.chain| ==> list.chain[i] in old(list.chain);
      ghost var rest := list.Nodes();
      k := InsertSorted(d);
      PlacedAt(rest, pendingTimer, k, d);
    }

    lemma AtFront(d: Dll, t: int, rearm: Rearming, before: seq<Dll>, due0: Deadlines, m: nat, i: nat)
      requires Valid() && Progress(before, due0, t, rearm, m, i, list.Nodes(), pendingTimer) && i < m && d == before[i]
      ensures list.chain != [] && list.Nodes() != [] && d in list.chain && list.Member(d) && d == list.Nodes()[0]
      ensures Without(list.Nodes(), d) == list.Nodes()[1..] && Without(list.Nodes()[1..], d) == list.Nodes()[1..]
    {
      hide StillArmed, DeadlinesAfter;
      var nodes := list.Nodes();
      NextFired(before, due0, t, rearm, m, i, nodes, pendingTimer);
      CancelFirst(nodes, pendingTimer, t, m - i);
      WithoutNothing(nodes[1..], d);
    }

    /** Takes the timer at the front off the list and runs its callback. */
    method Fire(d: Dll, t: int, rearm: Rearming, ghost before: seq<Dll>, ghost due0: Deadlines, ghost m: nat,
                ghost i: nat)
      requires Valid() && InTheFuture(rearm, t)
      requires Progress(before, due0, t, rearm, m, i, list.Nodes(), pendingTimer) && i < m && d == before[i]
      modifies this`pendingTimer, list, list.chain
      ensures Valid() && list.chain != [] && Progress(before, due0, t, rearm, m, i + 1, list.Nodes(), pendingTimer)
      ensures forall n :: n in list.chain ==> n in old(list.chain)
    {
      hide Valid, List.Valid, List.Member, Progress, InTheFuture, Sorted, Expired, PlaceOf, Inserted, Without;
      AtFront(d, t, rearm, before, due0, m, i);
      ghost var nodes, due := list.Nodes(), pendingTimer;
      ghost var at := SetTimerUsecs(d, 0, LWS_SET_TIMER_USEC_CANCEL);
      if d in rearm && rearm[d].1 != LWS_SET_TIMER_USEC_CANCEL {
        assert forall i :: 0 <= i < |list.chain| ==> list.chain[i] in old(list.chain);
        at := SetTimerUsecs(d, rearm[d].0, rearm[d].1);
        Rearmed(before, due0, t, rearm, m, i, nodes, due, at, pendingTimer);
      } else {
        NotRearmed(before, due0, t, rearm, m, i, nodes, due);
      }
    }

    /** One pass of the service loop over an expired timer: the successor is saved before the callback runs. */
    method ServiceOne(d: Dll, t: int, rearm: Rearming, ghost before: seq<Dll>, ghost due0: Deadlines, ghost m: nat,
                      ghost i: nat)
      returns (d1: Dll?)
      requires Valid() && InTheFuture(rearm, t) && list.Nodes() != [] && d == list.Nodes()[0]
      requires Progress(before, due0, t, rearm, m, i, list.Nodes(), pendingTimer) && i < m && d == before[i]
      modifies this`pendingTimer, list, list.chain
      ensures Valid() && list.chain != [] && Progress(before, due0, t, rearm, m, i + 1, list.Nodes(), pendingTimer)
      ensures Cursor(d1, list.Nodes(), m - (i + 1))
      ensures forall i :: 0 <= i < |list.chain| ==> list.chain[i] in old(list.chain)
    {
      ghost var nodes, due := list.Nodes(), pendingTimer;
      d1 := d.next;
      assert d == list.chain[1] && d1 == if |nodes| > 1 then nodes[1] else null;
      hide Valid, List.Valid, Progress, InTheFuture;
      Fire(d, t, rearm, before, due0, m, i);
      SavedNext(before, due0, t, rearm, m, i, nodes, due, list.Nodes(), pendingTimer);
    }

    lemma ServiceFrom(t: int, rearm: Rearming) returns (m: nat)
      requires Valid()
      ensures list.chain != [] && m <= |list.Nodes()|
      ensures Progress(list.Nodes(), pendingTimer, t, rearm, m, 0, list.Nodes(), pendingTimer)
      ensures Cursor(list.head.next, list.Nodes(), m)
    {
      m := ExpiredPrefix(list.Nodes(), pendingTimer, t);
      ServiceStarts(list.Nodes(), pendingTimer, t, rearm, m);
    }

    lemma IsSorted()
      requires Valid()
      ensures list.chain != [] && Distinct(list.Nodes()) && Sorted(list.Nodes(), pendingTimer)
    {
    }

    /** The loop over the expired timers; `fired` are the connections whose callback ran, in order. */
    method ServiceExpired(t: int, rearm: Rearming) returns (fired: seq<Dll>)
      requires Valid() && InTheFuture(rearm, t)
      modifies this`pendingTimer, list, list.chain
      ensures Valid() && list.chain != []
      ensures Expired(old(list.Nodes()), old(pendingTimer), t, |fired|) && fired == old(list.Nodes())[..|fired|]
      ensures forall n :: n in list.Nodes() ==> n in pendingTimer && pendingTimer[n] > t
      ensures StillArmed(old(list.Nodes()), |fired|, rearm, list.Nodes())
      ensures DeadlinesAfter(old(list.Nodes()), old(pendingTimer), |fired|, rearm, pendingTimer)
    {
      hide Valid, List.Valid, Progress, InTheFuture, Cursor, Expired, StillArmed, DeadlinesAfter;
      ghost var m := ServiceFrom(t, rearm);
      ghost var before, due0 := list.Nodes(), pendingTimer;
      fired := [];
      var d := list.head.next;
      while d != null
        invariant Valid() && list.chain != [] && |fired| <= m && fired == before[..|fired|]
        invariant Progress(before, due0, t, rearm, m, |fired|, list.Nodes(), pendingTimer)
        invariant Cursor(d, list.Nodes(), m - |fired|)
        invariant forall i :: 0 <= i < |list.chain| ==> list.chain[i] in old(list.chain)
        decreases m - |fired|
      {
        CursorStops(before, due0, t, rearm, m, |fired|, list.Nodes(), pendingTimer, d);
        if pendingTimer[d] > t {
          break;
        }
        var d1 := ServiceOne(d, t, rearm, before, due0, m, |fired|);
        fired := fired + [d];
        d := d1;
      }
      assert |fired| == m by {
        if d == null {
          CursorEnds(list.Nodes(), m - |fired|);
        }
      }
      ServiceDone(before, due0, t, rearm, m, list.Nodes(), pendingTimer);
    }

    /** How long to wait for the next timer. */
    method NextWait(now: int) returns (wait: int)
      requires Valid()
      ensures list.Nodes() == [] ==> wait == LWS_HRTIMER_NOWAIT
      ensures list.Nodes() != [] ==> wait == Max(0, pendingTimer[list.Nodes()[0]] - now)
      ensures forall n :: n in list.Nodes() ==> wait <= Max(0, pendingTimer[n] - now)
    {
      if list.head.next == null {
        return LWS_HRTIMER_NOWAIT;
      }
      var first := list.head.next;
      assert first == list.Nodes()[0];
      if pendingTimer[first] < now {
        return 0;
      }
      return pendingTimer[first] - now;
    }

    /**
     * Services the timers that have expired by time `t`; `later` is the clock when the wait is worked out.
     * A callback leaves all timers alone, or arms its own one in the future.
     */
    method Service(t: int, later: int, rearm: Rearming) returns (fired: seq<Dll>, wait: int)
      requires Valid() && InTheFuture(rearm, t)
      modifies this`pendingTimer, list, list.chain
      ensures Valid()
      ensures Expired(old(list.Nodes()), old(pendingTimer), t, |fired|) && fired == old(list.Nodes())[..|fired|]
      ensures forall n :: n in list.Nodes() ==> n in pendingTimer && pendingTimer[n] > t
      ensures StillArmed(old(list.Nodes()), |fired|, rearm, list.Nodes())
      ensures DeadlinesAfter(old(list.Nodes()), old(pendingTimer), |fired|, rearm, pendingTimer)
      ensures var before, due0, nodes, due := old(list.Nodes()), old(pendingTimer), list.Nodes(), pendingTimer;
              && |fired| <= |before|
              && (forall i :: 0 <= i < |before| ==> before[i] in due0 && (due0[before[i]] <= t <==> i < |fired|))
              && (forall i :: 0 <= i < |fired| ==>
                    var n := before[i];
                    if n in rearm && rearm[n].1 != -1 then n in nodes && n in due && due[n] == rearm[n].0 + rearm[n].1
                    else n !in nodes)
              && (forall i :: |fired| <= i < |before| ==>
                    before[i] in nodes && before[i] in due && due[before[i]] == due0[before[i]])
              && (forall n :: n in nodes ==> n in before)
              && (forall i, j :: 0 <= i < j < |nodes| ==>
                    nodes[i] in due && nodes[j] in due && due[nodes[i]] <= due[nodes[j]])
      ensures list.Nodes() == [] ==> wait == 0x7fff_ffff_ffff_ffff
      ensures list.Nodes() != [] ==> wait == Max(0, pendingTimer[list.Nodes()[0]] - later)
    {
      hide Valid, List.Valid, InTheFuture, Expired, StillArmed, DeadlinesAfter;
      IsSorted();
      ghost var before, due0 := list.Nodes(), pendingTimer;
      fired := ServiceExpired(t, rearm);
      IsSorted();
      ServiceMeans(before, due0, t, rearm, |fired|, list.Nodes(), pendingTimer);
      wait := NextWait(later);
    }
  }
}
