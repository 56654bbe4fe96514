/**
 Doubly linked lists (libjtype/list.c).  A list is walked from its head through `prev`
 fields; `next` fields point back towards the head.
 */
module LinkedList {

  class Node<T> {
    var data: T
    var prev: Node?<T>
    var next: Node?<T>

    constructor (data: T, prev: Node?<T>)
      ensures this.data == data && this.prev == prev && next == null
    {
      this.data := data;
      this.prev := prev;
      next := null;
    }
  }

  function Reversed<T>(s: seq<T>): (r: seq<T>)
    ensures |r| == |s|
  {
    if s == [] then [] else Reversed(s[1..]) + [s[0]]
  }

  lemma {:induction false} ReversedAt<T>(s: seq<T>, i: nat)
    requires i < |s|
    ensures Reversed(s)[i] == s[|s| - 1 - i]
  {
    if i < |s| - 1 { ReversedAt(s[1..], i); }
  }

  lemma ReversedAppend<T>(s: seq<T>, x: T)
    ensures Reversed(s + [x]) == [x] + Reversed(s)
  {
    forall i | 0 <= i < |s| + 1 ensures Reversed(s + [x])[i] == ([x] + Reversed(s))[i] {
      ReversedAt(s + [x], i);
      if i > 0 { ReversedAt(s, i - 1); }
    }
  }

  lemma ReversedTwice<T>(s: seq<T>)
    ensures Reversed(Reversed(s)) == s
  {
    forall i | 0 <= i < |s| ensures Reversed(Reversed(s))[i] == s[i] {
      ReversedAt(Reversed(s), i);
      ReversedAt(s, |s| - 1 - i);
    }
  }

  function Without<T>(s: seq<T>, k: nat): seq<T>
    requires k < |s|
  {
    s[..k] + s[k + 1..]
  }

  /** The data along a walk. */
  ghost function Data<T>(nodes: seq<Node<T>>): (s: seq<T>)
    reads nodes`data
    ensures |s| == |nodes|
  {
    if nodes == [] then [] else [nodes[0].data] + Data(nodes[1..])
  }

  ghost predicate Distinct<T>(nodes: seq<Node<T>>) {
    forall i, j :: 0 <= i < j < |nodes| ==> nodes[i] != nodes[j]
  }

  lemma WithoutDistinct<T>(nodes: seq<Node<T>>, k: nat)
    requires k < |nodes| && Distinct(nodes)
    ensures Distinct(Without(nodes, k))
  {
  }

  lemma ReversedDistinct<T>(nodes: seq<Node<T>>)
    requires Distinct(nodes)
    ensures Distinct(Reversed(nodes))
  {
    hide Reversed;
    forall i, j | 0 <= i < j < |nodes| ensures Reversed(nodes)[i] != Reversed(nodes)[j] {
      ReversedAt(nodes, i);
      ReversedAt(nodes, j);
    }
  }

  /** From node `i` on a walk goes forward by `prev` to `nodes[i + 1]`, and back by `next`. */
  ghost predicate Joined<T>(nodes: seq<Node<T>>)
    reads nodes`prev, nodes`next
  {
    && (forall i, j :: 0 <= i < j < |nodes| && j == i + 1 ==> nodes[i].prev == nodes[j] && nodes[j].next == nodes[i])
    && (nodes != [] ==> nodes[0].next == null && nodes[|nodes| - 1].prev == null)
  }

  /** The walk passes over node `k`. */
  ghost predicate Bypassed<T>(nodes: seq<Node<T>>, k: nat)
    requires k < |nodes|
    reads nodes`prev, nodes`next
  {
    && (forall i, j :: 0 <= i < j < |nodes| && j == i + 1 && i != k && j != k ==>
          nodes[i].prev == nodes[j] && nodes[j].next == nodes[i])
    && (0 < k < |nodes| - 1 ==> nodes[k - 1].prev == nodes[k + 1] && nodes[k + 1].next == nodes[k - 1])
    && (|nodes| > 1 ==> nodes[if k == 0 then 1 else 0].next == null)
    && (|nodes| > 1 ==> nodes[if k == |nodes| - 1 then k - 1 else |nodes| - 1].prev == null)
  }

  lemma BypassedJoined<T>(nodes: seq<Node<T>>, k: nat)
    requires k < |nodes| && Bypassed(nodes, k)
    ensures Joined(Without(nodes, k))
  {
    var m := Without(nodes, k);
    forall i, j | 0 <= i < j < |m| && j == i + 1 ensures m[i].prev == m[j] && m[j].next == m[i] {
      var i', j' := if i < k then i else i + 1, if j < k then j else j + 1;
      assert m[i] == nodes[i'] && m[j] == nodes[j'];
    }
  }

  lemma {:induction false} DataWithout<T>(nodes: seq<Node<T>>, k: nat)
    requires k < |nodes|
    ensures Data(Without(nodes, k)) == Without(Data(nodes), k)
  {
    if k > 0 {
      DataWithout(nodes[1..], k - 1);
      assert Without(nodes, k)[1..] == Without(nodes[1..], k - 1);
    } else {
      assert Without(nodes, 0) == nodes[1..];
    }
  }

  ghost function Ahead<T>(nodes: seq<Node<T>>, i: nat): Node?<T> {
    if i + 1 < |nodes| then nodes[i + 1] else null
  }

  ghost function Behind<T>(nodes: seq<Node<T>>, i: nat): Node?<T> {
    if 0 < i <= |nodes| then nodes[i - 1] else null
  }

  /** The first `k` nodes have their two fields exchanged. */
  ghost predicate Turned<T>(nodes: seq<Node<T>>, k: nat)
    reads nodes`prev, nodes`next
  {
    && (forall i :: 0 <= i < |nodes| ==> nodes[i].prev == if i < k then Behind(nodes, i) else Ahead(nodes, i))
    && (forall i :: 0 <= i < |nodes| ==> nodes[i].next == if i < k then Ahead(nodes, i) else Behind(nodes, i))
  }

  lemma TurnedAt<T>(nodes: seq<Node<T>>, k: nat)
    requires k < |nodes| && Turned(nodes, k)
    ensures nodes[k].prev == Ahead(nodes, k) && nodes[k].next == Behind(nodes, k)
    ensures Ahead(nodes, k) == if k + 1 < |nodes| then nodes[k + 1] else null
  {
  }

  lemma JoinedIsUnturned<T>(nodes: seq<Node<T>>)
    requires Joined(nodes)
    ensures Turned(nodes, 0)
  {
    forall i | 0 <= i < |nodes| ensures nodes[i].prev == Ahead(nodes, i) && nodes[i].next == Behind(nodes, i) {
      if i + 1 < |nodes| { assert nodes[i].prev == nodes[i + 1]; }
      if i > 0 { assert nodes[i].next == nodes[i - 1]; }
    }
  }

  lemma TurnedPair<T>(nodes: seq<Node<T>>, i: nat)
    requires i + 1 < |nodes| && Turned(nodes, |nodes|)
    ensures Reversed(nodes)[i].prev == Reversed(nodes)[i + 1] && Reversed(nodes)[i + 1].next == Reversed(nodes)[i]
  {
    hide Reversed;
    var k := |nodes| - 1 - i;
    ReversedAt(nodes, i);
    ReversedAt(nodes, i + 1);
    assert nodes[k].prev == Behind(nodes, k) && nodes[k - 1].next == Ahead(nodes, k - 1);
  }

  lemma TurnedEnds<T>(nodes: seq<Node<T>>)
    requires nodes != [] && Turned(nodes, |nodes|)
    ensures Reversed(nodes)[0] == nodes[|nodes| - 1] && Reversed(nodes)[|nodes| - 1] == nodes[0]
    ensures nodes[0].prev == null && nodes[|nodes| - 1].next == null
  {
    hide Reversed;
    ReversedAt(nodes, 0);
    ReversedAt(nodes, |nodes| - 1);
    assert nodes[0].prev == Behind(nodes, 0) && nodes[|nodes| - 1].next == Ahead(nodes, |nodes| - 1);
  }

  lemma TurnedIsJoined<T>(nodes: seq<Node<T>>)
    requires Turned(nodes, |nodes|)
    ensures Joined(Reversed(nodes))
    ensures nodes != [] ==> Reversed(nodes)[0] == nodes[|nodes| - 1]
  {
    hide Turned, Reversed;
    forall i, j | 0 <= i < j < |Reversed(nodes)| && j == i + 1
      ensures Reversed(nodes)[i].prev == Reversed(nodes)[j] && Reversed(nodes)[j].next == Reversed(nodes)[i]
    {
      TurnedPair(nodes, i);
    }
    if nodes != [] { TurnedEnds(nodes); }
  }

  lemma {:induction false} DataReversed<T>(nodes: seq<Node<T>>)
    ensures Data(Reversed(nodes)) == Reversed(Data(nodes))
  {
    if nodes != [] {
      DataReversed(nodes[1..]);
      DataAppend(Reversed(nodes[1..]), nodes[0]);
    }
  }

  twostate lemma {:induction false} SameData<T>(nodes: seq<Node<T>>)
    requires forall k :: 0 <= k < |nodes| ==> nodes[k].data == old(nodes[k].data)
    ensures Data(nodes) == old(Data(nodes))
  {
    if nodes != [] { SameData(nodes[1..]); }
  }

  lemma {:induction false} DataAt<T>(nodes: seq<Node<T>>, k: nat)
    requires k < |nodes|
    ensures Data(nodes)[k] == nodes[k].data
  {
    if k > 0 { DataAt(nodes[1..], k - 1); }
  }

  lemma DataCons<T>(n: Node<T>, nodes: seq<Node<T>>)
    ensures Data([n] + nodes) == [n.data] + Data(nodes)
  {
    assert ([n] + nodes)[1..] == nodes;
  }

  lemma {:induction false} DataAppend<T>(nodes: seq<Node<T>>, n: Node<T>)
    ensures Data(nodes + [n]) == Data(nodes) + [n.data]
  {
    if nodes != [] {
      DataAppend(nodes[1..], n);
      assert (nodes + [n])[1..] == nodes[1..] + [n];
    }
  }

  /** A variable that holds the head of a list. */
  class List<T(==)> {
    var head: Node?<T>
    ghost var nodes: seq<Node<T>>

    /** The list consists of exactly `nodes`, in order. */
    ghost predicate Valid()
      reads this, nodes
    {
      && (head == null <==> nodes == []) && (head != null ==> head == nodes[0])
      && Distinct(nodes) && Joined(nodes)
    }

    ghost function Contents(): (s: seq<T>)
      reads this, nodes
    {
      Data(nodes)
    }

    constructor ()
      ensures Valid() && nodes == []
    {
      head := null;
      nodes := [];
    }

    /** jt_list_add, with the item's data. */
    method Add(data: T) returns (item: Node<T>)
      requires Valid()
      modifies this, nodes`next
      ensures Valid() && fresh(item) && nodes == [item] + old(nodes)
      ensures item.data == data && Contents() == [data] + old(Contents())
    {
      hide Data;
      ghost var was := nodes;
      item := new Node(data, head);
      if head != null { head.next := item; }
      head := item;
      assert Data(was) == old(Data(was));
      DataCons(item, was);
      nodes := [item] + was;
    }

    /** jt_list_delinkitem: no item, no change. */
    method DelinkItem(item: Node?<T>, ghost k: nat)
      requires Valid() && (item != null ==> k < |nodes| && nodes[k] == item)
      modifies this, nodes`prev, nodes`next
      ensures Valid() && nodes == if item == null then old(nodes) else Without(old(nodes), k)
      ensures Contents() == if item == null then old(Contents()) else Without(old(Contents()), k)
      ensures item != null ==> item.prev == old(item.prev)
    {
      hide Joined, Bypassed, Data, Distinct;
      ghost var n := nodes;
      if item == null {
        return;
      }
      Unlink(item, k);
      BypassedJoined(n, k);
      WithoutDistinct(n, k);
      DataWithout(n, k);
      nodes := Without(n, k);
    }

    method Unlink(item: Node<T>, ghost k: nat)
      requires Valid() && k < |nodes| && nodes[k] == item
      modifies this`head, nodes`prev, nodes`next
      ensures Bypassed(nodes, k) && item.prev == old(item.prev)
      ensures head == if k > 0 then nodes[0] else if |nodes| > 1 then nodes[1] else null
    {
      Neighbours(k);
      if item.prev != null { item.prev.next := item.next; }
      if item.next != null { item.next.prev := item.prev; }
      if head == item { head := item.prev; }
    }

    /**
     jt_list_removehead.  The new head keeps pointing at the item removed, so the list is
     sound afterwards only if it is empty.
     */
    method RemoveHead()
      requires Valid() && head != null
      modifies this
      ensures nodes == old(nodes)[1..] && head == (if nodes == [] then null else nodes[0])
      ensures Contents() == old(Contents())[1..]
      ensures Valid() <==> nodes == []
    {
      Neighbours(0);
      if |nodes| > 1 { Neighbours(1); }
      head := head.prev;
      nodes := nodes[1..];
    }

    /** jt_list_itemfromdata: the item nearest the head that holds `data`. */
    method ItemFromData(data: T) returns (item: Node?<T>)
      requires Valid()
      ensures item == null <==> forall i :: 0 <= i < |nodes| ==> nodes[i].data != data
      ensures item != null ==> exists k :: 0 <= k < |nodes| && nodes[k] == item && item.data == data
                                           && forall i :: 0 <= i < k ==> nodes[i].data != data
    {
      hide Joined, Distinct;
      item := head;
      ghost var k := 0;
      while item != null && item.data != data
        invariant 0 <= k <= |nodes| && item == From(k)
        invariant forall i :: 0 <= i < k ==> nodes[i].data != data
        decreases |nodes| - k
      {
        Neighbours(k);
        item := item.prev;
        k := k + 1;
      }
    }

    /** jt_list_nthitem: a step from no item at all is an access through a null pointer in the source. */
    method NthItem(n: int) returns (item: Node?<T>)
      requires Valid() && (n > 0 ==> head != null)
      ensures item == if n <= 0 then head else From(n)
    {
      hide Joined, Distinct;
      item := head;
      var left := n;
      ghost var k := 0;
      while left > 0
        invariant n > 0 ==> 0 <= k < |nodes| && item == nodes[k]
        invariant if n <= 0 then k == 0 && left == n && item == head else left + k == n && left >= 0
      {
        Neighbours(k);
        item := item.prev;
        k := k + 1;
        if item == null { return; }
        left := left - 1;
      }
    }

    /** jt_list_length. */
    method Length() returns (count: nat)
      requires Valid()
      ensures count == |nodes|
    {
      hide Joined, Distinct;
      count := 0;
      var walk := head;
      while walk != null
        invariant count <= |nodes| && walk == From(count)
        decreases |nodes| - count
      {
        Neighbours(count);
        count := count + 1;
        walk := walk.prev;
      }
    }

    /** jt_list_end. */
    method End() returns (last: Node?<T>)
      requires Valid()
      ensures last == if nodes == [] then null else nodes[|nodes| - 1]
    {
      hide Joined, Distinct;
      last := head;
      ghost var k := 0;
      if nodes != [] { Neighbours(0); }
      while last != null && last.prev != null
        invariant 0 <= k && (nodes != [] ==> k < |nodes|) && last == From(k)
        invariant nodes != [] && k < |nodes| - 1 ==> nodes[k].prev != null
        decreases |nodes| - k
      {
        Neighbours(k);
        last := last.prev;
        k := k + 1;
        Neighbours(k);
      }
      if nodes != [] { Neighbours(k); }
    }

    /** jt_list_reverse: the list is turned round in place. */
    method Reverse()
      requires Valid()
      modifies this, nodes`prev, nodes`next
      ensures Valid() && nodes == Reversed(old(nodes)) && Contents() == Reversed(old(Contents()))
    {
      hide Joined, Turned, Data, Reversed, Distinct;
      ghost var n := nodes;
      JoinedIsUnturned(n);
      head := TurnAll();
      TurnedIsJoined(n);
      ReversedDistinct(n);
      DataReversed(n);
      nodes := Reversed(n);
    }

    /** The loop of jt_list_reverse, which remembers the last item it turns. */
    method TurnAll() returns (newEnd: Node?<T>)
      requires head == From(0) && Turned(nodes, 0) && Distinct(nodes)
      modifies nodes`prev, nodes`next
      ensures Turned(nodes, |nodes|)
      ensures newEnd == if nodes == [] then null else nodes[|nodes| - 1]
    {
      hide Turned, Distinct;
      newEnd := null;
      var walk := head;
      ghost var k := 0;
      while walk != null
        invariant 0 <= k <= |nodes| && walk == From(k) && Turned(nodes, k)
        invariant newEnd == if k == |nodes| > 0 then nodes[k - 1] else null
        decreases |nodes| - k
      {
        var prev := TurnOne(walk, k);
        if prev == null { newEnd := walk; }
        walk := prev;
        k := k + 1;
      }
    }

    method TurnOne(walk: Node<T>, ghost k: nat) returns (prev: Node?<T>)
      requires k < |nodes| && walk == nodes[k] && Turned(nodes, k) && Distinct(nodes)
      modifies walk`prev, walk`next
      ensures Turned(nodes, k + 1) && prev == From(k + 1)
    {
      hide Ahead, Behind;
      TurnedAt(nodes, k);
      prev := walk.prev;
      var next := walk.next;
      walk.prev := next;
      walk.next := prev;
    }

    /** A list none of whose nodes changed is as it was. */
    twostate lemma Untouched()
      requires old(Valid()) && unchanged(this) && forall k :: 0 <= k < |old(nodes)| ==> unchanged(old(nodes)[k])
      ensures Valid() && Contents() == old(Contents())
    {
      SameData(nodes);
    }

    /** The node at position `k` of the walk, or none. */
    ghost function From(k: nat): Node?<T>
      reads this
    {
      if k < |nodes| then nodes[k] else null
    }

    lemma Neighbours(k: nat)
      requires Valid() && k < |nodes|
      ensures nodes[k].prev == if k + 1 < |nodes| then nodes[k + 1] else null
      ensures nodes[k].next == if k > 0 then nodes[k - 1] else null
      ensures head == nodes[k] <==> k == 0
    {
    }
  }
}
