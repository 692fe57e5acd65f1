/** The intrusive doubly linked list: connections are linked through nodes embedded in them. */
module DllList {

  /** A list node embedded in a connection, or a list head. */
  class Dll {
    var prev: Dll?
    var next: Dll?

    constructor ()
      ensures prev == null && next == null
    {
      prev, next := null, null;
    }
  }

  ghost function Without<T>(s: seq<T>, x: T): seq<T> {
    if s == [] then [] else if s[0] == x then s[1..] else [s[0]] + Without(s[1..], x)
  }

  lemma {:induction false} WithoutAt<T>(s: seq<T>, x: T, k: nat)
    requires k < |s| && s[k] == x && forall i :: 0 <= i < k ==> s[i] != x
    ensures Without(s, x) == s[..k] + s[k + 1..]
  {
    if k > 0 {
      WithoutAt(s[1..], x, k - 1);
      assert s[..k] == [s[0]] + s[1..][..k - 1];
    }
  }

  lemma {:induction false} WithoutNothing<T>(s: seq<T>, x: T)
    requires x !in s
    ensures Without(s, x) == s
  {
    if s != [] {
      WithoutNothing(s[1..], x);
    }
  }

  lemma WithoutFirst<T>(chain: seq<T>, x: T, k: nat)
    requires 1 <= k < |chain| && chain[k] == x && forall i, j :: 0 <= i < j < |chain| ==> chain[i] != chain[j]
    ensures (chain[..k] + chain[k + 1..])[1..] == Without(chain[1..], x)
  {
    WithoutAt(chain[1..], x, k - 1);
    assert chain[1..][..k - 1] + chain[1..][k..] == (chain[..k] + chain[k + 1..])[1..];
  }

  lemma FirstIndex<T>(s: seq<T>, x: T) returns (k: nat)
    requires x in s
    ensures k < |s| && s[k] == x && forall i :: 0 <= i < k ==> s[i] != x
  {
    k := 0;
    while s[k] != x
      invariant k < |s| && x in s[k..]
      decreases |s| - k
      invariant forall i :: 0 <= i < k ==> s[i] != x
    {
      k := k + 1;
    }
  }

  class List {
    const head: Dll
    /** The head and the nodes behind it. */
    ghost var chain: seq<Dll>

    /** A well-formed list: both directions of every link agree, and no node occurs twice. */
    ghost predicate Valid()
      reads this, chain
    {
      && chain != [] && chain[0] == head
      && chain[0].prev == null && chain[|chain| - 1].next == null
      && (forall i {:trigger chain[i].prev} :: 1 <= i < |chain| ==> chain[i].prev == chain[i - 1])
      && (forall i {:trigger chain[i].next} :: 0 <= i < |chain| - 1 ==> chain[i].next == chain[i + 1])
      && (forall i, j :: 0 <= i < j < |chain| ==> chain[i] != chain[j])
    }

    ghost function Nodes(): seq<Dll>
      requires chain != []
      reads this
    {
      chain[1..]
    }

    /** A node that is on this list, or on none; its back pointer tells which. */
    ghost predicate Member(d: Dll)
      reads this, d
    {
      d != head && (d in chain <==> d.prev != null)
    }

    constructor ()
      ensures Valid() && Nodes() == [] && fresh(head) && chain == [head]
    {
      head := new Dll();
      new;
      chain := [head];
    }

    method AddFront(d: Dll)
      requires Valid() && Member(d)
      modifies this, chain, d
      ensures Valid() && Member(d)
      ensures Nodes() == if d in old(Nodes()) then old(Nodes()) else [d] + old(Nodes())
      ensures forall n :: n in chain <==> n in old(chain) || n == d
    {
      if d.prev != null {
        return;
      }
      d.next := head.next;
      if d.next != null {
        assert d.next == chain[1];
        d.next.prev := d;
      }
      d.prev := head;
      head.next := d;
      chain := [head, d] + chain[1..];
    }

    /** Takes the node at position `k` of the chain out of the list. */
    method Unlink(d: Dll, ghost k: nat)
      requires Valid() && 1 <= k < |chain| && chain[k] == d
      modifies this, chain
      ensures Valid() && chain == old(chain[..k] + chain[k + 1..])
      ensures d.prev == null && d.next == null
    {
      assert d.prev == chain[k - 1];
      assert k < |chain| - 1 ==> d.next == chain[k + 1];
      if d.next != null {
        d.next.prev := d.prev;
      }
      if d.prev != null {
        d.prev.next := d.next;
      }
      d.prev := null;
      d.next := null;
      chain := chain[..k] + chain[k + 1..];
    }

    method Remove(d: Dll)
      requires Valid() && Member(d)
      modifies this, chain, d
      ensures Valid() && Member(d) && d.prev == null && d !in chain && chain != []
      ensures Nodes() == Without(old(Nodes()), d)
      ensures forall n :: n in chain <==> n in old(chain) && n != d
    {
      if d.prev == null {
        WithoutNothing(Nodes(), d);
        return;
      }
      ghost var k :| 1 <= k < |chain| && chain[k] == d;
      WithoutFirst(chain, d, k);
      Unlink(d, k);
    }

    /** Links `d` in front of `dd`, the node at position `k` of the chain. */
    method LinkBefore(dd: Dll, d: Dll, ghost k: nat)
      requires Valid() && d != head && d !in chain && 1 <= k < |chain| && chain[k] == dd
      modifies this, chain, d
      ensures Valid() && d.prev != null && chain == old(chain[..k] + [d] + chain[k..])
    {
      assert dd.prev == chain[k - 1] && chain[k - 1].next == dd;
      d.next := dd;
      d.prev := dd.prev;
      dd.prev.next := d;
      dd.prev := d;
      chain := chain[..k] + [d] + chain[k..];
    }

    /** Links `d` behind `dd`, the head or the node at position `k` of the chain. */
    method LinkAfter(dd: Dll, d: Dll, ghost k: nat)
      requires Valid() && d != head && d !in chain && k < |chain| && chain[k] == dd
      modifies this, chain, d
      ensures Valid() && d.prev != null && chain == old(chain[..k + 1] + [d] + chain[k + 1..])
    {
      assert k < |chain| - 1 ==> dd.next == chain[k + 1];
      d.next := dd.next;
      d.prev := dd;
      if dd.next != null {
        dd.next.prev := d;
      }
      dd.next := d;
      chain := chain[..k + 1] + [d] + chain[k + 1..];
    }

    /** Links `d` in front of `dd` or behind it, so that it becomes node number `k`. */
    method LinkAt(dd: Dll, bef: bool, d: Dll, ghost k: nat)
      requires Valid() && d != head && d !in chain && k <= |Nodes()|
      requires bef == (k < |Nodes()|) && dd == chain[if bef then k + 1 else k]
      modifies this, chain, d
      ensures Valid() && d.prev != null && chain != [] && Nodes() == old(Nodes()[..k] + [d] + Nodes()[k..])
      ensures forall n :: n in chain <==> n in old(chain) || n == d
    {
      ghost var before := chain;
      if bef {
        LinkBefore(dd, d, k + 1);
      } else {
        LinkAfter(dd, d, k);
      }
      hide Valid;
      SplitAt(before, d, k + 1);
    }
  }

  lemma SplitAt<T>(s: seq<T>, x: T, k: nat)
    requires 1 <= k <= |s|
    ensures (s[..k] + [x] + s[k..])[1..] == s[1..][..k - 1] + [x] + s[1..][k - 1..]
    ensures forall n :: n in s[..k] + [x] + s[k..] <==> n in s || n == x
  {
    assert s == s[..k] + s[k..];
  }
}
