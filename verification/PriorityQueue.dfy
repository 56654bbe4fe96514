/**
 The priority queue (libjtype/pqueue.c): a binary heap, smallest priority first, in an
 array that doubles when it fills.
 */
module PriorityQueue {

  datatype Item<T> = Item(priority: nat, data: T)

  datatype Option<T> = None | Some(value: T)

  function Parent(i: int): int {
    (i + 1) / 2 - 1
  }

  function Left(i: nat): nat {
    2 * (i + 1) - 1
  }

  function Right(i: nat): nat {
    2 * (i + 1)
  }

  /** Heap order at `i`: no smaller than its parent. */
  ghost predicate Ordered<T>(s: seq<Item<T>>, i: nat)
    requires i < |s|
  {
    i > 0 ==> s[Parent(i)].priority <= s[i].priority
  }

  ghost predicate IsHeap<T>(s: seq<Item<T>>) {
    forall i :: 0 <= i < |s| ==> Ordered(s, i)
  }

  /** The first item of a heap has the least priority. */
  lemma {:induction false} HeadIsLeast<T>(s: seq<Item<T>>, i: nat)
    requires IsHeap(s) && i < |s|
    ensures s[0].priority <= s[i].priority
  {
    assert Ordered(s, i);
    if i > 0 { HeadIsLeast(s, Parent(i)); }
  }

  function Swapped<T>(s: seq<T>, i: nat, j: nat): seq<T>
    requires i < |s| && j < |s|
  {
    s[i := s[j]][j := s[i]]
  }

  lemma SwappedMultiset<T>(s: seq<T>, i: nat, j: nat)
    requires i < |s| && j < |s|
    ensures multiset(Swapped(s, i, j)) == multiset(s)
  {
  }

  // ---------- moving an item up ----------

  /** A heap but for item `i`, which may be smaller than its parent. */
  ghost predicate HeapAbove<T>(s: seq<Item<T>>, i: nat)
    requires i < |s|
  {
    && (forall j :: 0 <= j < |s| && j != i ==> Ordered(s, j))
    && (forall j :: 0 < j < |s| && Parent(j) == i > 0 ==> s[Parent(i)].priority <= s[j].priority)
  }

  lemma MoveUp<T>(s: seq<Item<T>>, i: nat)
    requires 0 < i < |s| && HeapAbove(s, i) && s[Parent(i)].priority > s[i].priority
    ensures HeapAbove(Swapped(s, i, Parent(i)), Parent(i))
  {
    var q, t := Parent(i), Swapped(s, i, Parent(i));
    assert Ordered(s, q);
    forall j | 0 <= j < |t| && j != q ensures Ordered(t, j) {
      assert j != i ==> Ordered(s, j);
    }
    forall j | 0 < j < |t| && Parent(j) == q > 0 ensures t[Parent(q)].priority <= t[j].priority {
      assert j != i ==> Ordered(s, j);
    }
  }

  /** Writing the parent into the hole moves the hole up. */
  lemma HoleUp<T>(a: seq<T>, i: nat, q: nat, x: T)
    requires i < |a| && q < |a| && i != q
    ensures Swapped(a[i := x], i, q) == a[i := a[q]][q := x]
  {
  }

  lemma SettledAbove<T>(s: seq<Item<T>>, i: nat)
    requires i < |s| && HeapAbove(s, i) && (i > 0 ==> s[Parent(i)].priority <= s[i].priority)
    ensures IsHeap(s)
  {
  }

  // ---------- moving an item down ----------

  /** A heap but for item `i`, which may be larger than its children. */
  ghost predicate HeapBelow<T>(s: seq<Item<T>>, i: nat)
    requires i < |s|
  {
    && (forall j :: 0 <= j < |s| && Parent(j) != i ==> Ordered(s, j))
    && (forall j :: 0 < j < |s| && Parent(j) == i > 0 ==> s[Parent(i)].priority <= s[j].priority)
  }

  lemma MoveDown<T>(s: seq<Item<T>>, i: nat, c: nat)
    requires i < |s| && HeapBelow(s, i) && 0 < c < |s| && Parent(c) == i && s[c].priority < s[i].priority
    requires forall j :: 0 < j < |s| && Parent(j) == i ==> s[c].priority <= s[j].priority
    ensures HeapBelow(Swapped(s, i, c), c)
  {
    var t := Swapped(s, i, c);
    forall j | 0 <= j < |t| && Parent(j) != c ensures Ordered(t, j) {
      assert Parent(j) != i ==> Ordered(s, j);
    }
    forall j | 0 < j < |t| && Parent(j) == c ensures t[Parent(c)].priority <= t[j].priority {
      assert Ordered(s, j);
    }
  }

  lemma Children(i: nat, j: nat)
    requires j > 0 && Parent(j) == i
    ensures j == Left(i) || j == Right(i)
  {
  }

  /** `c` is no larger than `i` and its children, and one of them. */
  ghost predicate Smallest<T>(s: seq<Item<T>>, i: nat, c: nat)
    requires i < |s| && c < |s|
  {
    && (c == i || (c > 0 && Parent(c) == i && s[c].priority < s[i].priority))
    && s[c].priority <= s[i].priority
    && (Left(i) < |s| ==> s[c].priority <= s[Left(i)].priority)
    && (Right(i) < |s| ==> s[c].priority <= s[Right(i)].priority)
  }

  lemma SmallestMovesUp<T>(s: seq<Item<T>>, i: nat, c: nat)
    requires i < |s| && c < |s| && HeapBelow(s, i) && Smallest(s, i, c) && c != i
    ensures i < c && HeapBelow(Swapped(s, i, c), c)
  {
    hide HeapBelow, Swapped;
    forall j | 0 < j < |s| && Parent(j) == i ensures s[c].priority <= s[j].priority {
      Children(i, j);
    }
    MoveDown(s, i, c);
  }

  lemma SettledBelow<T>(s: seq<Item<T>>, i: nat)
    requires i < |s| && HeapBelow(s, i) && Smallest(s, i, i)
    ensures IsHeap(s)
  {
    forall j | 0 <= j < |s| ensures Ordered(s, j) {
      if j > 0 && Parent(j) == i { Children(i, j); }
    }
  }

  /** A heap with its last item moved to the front. */
  function LastToFront<T>(s: seq<T>): seq<T>
    requires s != []
  {
    s[0 := s[|s| - 1]][..|s| - 1]
  }

  lemma LastToFrontMultiset<T>(s: seq<T>)
    requires s != []
    ensures multiset(LastToFront(s)) == multiset(s) - multiset{s[0]}
  {
    var n := |s| - 1;
    assert s == s[..n] + [s[n]];
    if n > 0 {
      assert s[..n] == [s[0]] + s[1..n] && LastToFront(s) == [s[n]] + s[1..n];
    }
  }

  lemma LastToFrontHeap<T>(s: seq<Item<T>>)
    requires IsHeap(s) && s != []
    ensures if |s| > 1 then HeapBelow(LastToFront(s), 0) else IsHeap(LastToFront(s))
  {
    var t := LastToFront(s);
    forall j | 0 <= j < |t| && Parent(j) != 0 ensures Ordered(t, j) {
      assert Ordered(s, j);
    }
  }

  /** A least item of `m`. */
  ghost predicate Least<T>(m: multiset<Item<T>>, x: Item<T>) {
    x in m && forall y :: y in m ==> x.priority <= y.priority
  }

  lemma HeadIsLeastOfAll<T>(s: seq<Item<T>>)
    requires IsHeap(s) && s != []
    ensures Least(multiset(s), s[0])
  {
    forall x | x in multiset(s) ensures s[0].priority <= x.priority {
      var i :| 0 <= i < |s| && s[i] == x;
      HeadIsLeast(s, i);
    }
  }

  // ---------- the queue ----------

  class Queue<T(0)> {
    var item: array<Item<T>>
    var length: nat

    ghost predicate Valid()
      reads this, item
    {
      length < item.Length && IsHeap(item[..length])
    }

    ghost function Contents(): (m: multiset<Item<T>>)
      requires length <= item.Length
      reads this, item
    {
      multiset(item[..length])
    }

    /** jt_pqueue_new. */
    constructor ()
      ensures Valid() && fresh(item) && Contents() == multiset{}
    {
      item := new Item<T>[4];
      length := 0;
    }

    /** Make room for one more item, doubling the array when the new length reaches its size. */
    method Grow()
      requires Valid()
      modifies this
      ensures length == old(length) + 1 < item.Length && (item == old(item) || fresh(item))
      ensures item[..length - 1] == old(item[..length])
    {
      length := length + 1;
      if length == item.Length {
        var full := item;
        var bigger := new Item<T>[full.Length * 2];
        for k := 0 to full.Length
          modifies bigger
          invariant bigger[..k] == full[..k]
        {
          bigger[k] := full[k];
        }
        item := bigger;
      }
    }

    /** jt_pqueue_insert, with the item's data. */
    method Insert(priority: nat, data: T)
      requires Valid()
      modifies this, item
      ensures Valid() && (item == old(item) || fresh(item))
      ensures Contents() == old(Contents()) + multiset{Item(priority, data)}
    {
      hide IsHeap, HeapAbove;
      Grow();
      var x := Item(priority, data);
      ghost var before := item[..length - 1];
      AppendedAbove(before, x);
      assert item[..length][length - 1 := x] == before + [x];
      SiftUp(length - 1, x);
    }

    /** Shift larger ancestors down until `x` fits in the hole at `hole`. */
    method SiftUp(hole: nat, x: Item<T>)
      requires hole < length < item.Length && HeapAbove(item[..length][hole := x], hole)
      modifies item
      ensures IsHeap(item[..length]) && multiset(item[..length]) == old(multiset(item[..length][hole := x]))
    {
      hide IsHeap, HeapAbove, Swapped;
      var i := hole;
      ghost var s := item[..length][hole := x];
      while i > 0 && item[Parent(i)].priority > x.priority
        invariant 0 <= i < length == |s|
        invariant s == item[..length][i := x] && HeapAbove(s, i)
        invariant multiset(s) == old(multiset(item[..length][hole := x]))
      {
        var q := Parent(i);
        MoveUp(s, i);
        SwappedMultiset(s, i, q);
        HoleUp(item[..length], i, q, x);
        ghost var a := item[..length];
        item[i] := item[q];
        assert item[..length] == a[i := a[q]];
        s := Swapped(s, i, q);
        i := q;
      }
      SettledAbove(s, i);
      item[i] := x;
      assert item[..length] == s;
    }

    lemma AppendedAbove(s: seq<Item<T>>, x: Item<T>)
      requires IsHeap(s)
      ensures HeapAbove(s + [x], |s|)
    {
      forall j | 0 <= j < |s| ensures Ordered(s + [x], j) {
        assert Ordered(s, j);
      }
    }

    /** jt_pqueue_head. */
    method Head() returns (least: Option<Item<T>>)
      requires Valid()
      ensures least.None? <==> length == 0
      ensures least.Some? ==> Least(Contents(), least.value) && least.value == item[0]
    {
      hide IsHeap, Least;
      if length == 0 { return None; }
      least := Some(item[0]);
      HeadIsLeastOfAll(item[..length]);
    }

    /** Drop the last item into the place of the first. */
    method Shorten()
      requires 0 < length <= item.Length
      modifies this`length, item
      ensures length == old(length) - 1 && item[..length] == LastToFront(old(item[..length]))
    {
      length := length - 1;
      item[0] := item[length];
    }

    /** jt_pqueue_extract. */
    method Extract() returns (least: Option<Item<T>>)
      requires Valid()
      modifies this`length, item
      ensures Valid()
      ensures least.None? <==> old(length) == 0
      ensures least.None? ==> length == 0
      ensures least.Some? ==> Least(old(Contents()), least.value) && length == old(length) - 1
                              && least.value == old(item[0])
                              && Contents() == old(Contents()) - multiset{least.value}
    {
      hide IsHeap, HeapBelow, Least, LastToFront;
      least := Head();
      if length == 0 { return; }
      LastToFrontMultiset(item[..length]);
      LastToFrontHeap(item[..length]);
      Shorten();
      if length > 0 {
        Heapify(0);
      }
    }

    /** jt_pqueue_heapify. */
    method Heapify(i: nat)
      requires i < length < item.Length && HeapBelow(item[..length], i)
      modifies item
      ensures IsHeap(item[..length]) && multiset(item[..length]) == multiset(old(item[..length]))
      decreases length - i
    {
      hide IsHeap, HeapBelow, Swapped;
      var l, r, largest := Left(i), Right(i), i;
      if l < length && item[l].priority < item[i].priority { largest := l; }
      if r < length && item[r].priority < item[largest].priority { largest := r; }
      ghost var s := item[..length];
      assert Smallest(s, i, largest);
      if largest != i {
        SmallestMovesUp(s, i, largest);
        SwappedMultiset(s, i, largest);
        Exchange(i, largest);
        Heapify(largest);
      } else {
        SettledBelow(s, i);
      }
    }

    method Exchange(i: nat, j: nat)
      requires i < length <= item.Length && j < length
      modifies item
      ensures item[..length] == Swapped(old(item[..length]), i, j)
    {
      item[i], item[j] := item[j], item[i];
    }

    /** Extract until nothing is left, as the allocator does with the spans of a chunk. */
    method Drain() returns (out: seq<Item<T>>)
      requires Valid()
      modifies this, item
      ensures Valid() && Contents() == multiset{}
      ensures IsDrain(old(Contents()), out)
    {
      hide IsHeap, Least, IsDrainUpTo;
      out := [];
      ghost var start := Contents();
      NothingDrained(start);
      while length > 0
        invariant Valid() && item == old(item)
        invariant IsDrainUpTo(start, out, Contents())
      {
        ghost var rest := Contents();
        var next := Extract();
        DrainOneMore(start, out, rest, next.value);
        out := out + [next.value];
      }
    }
  }

  // ---------- draining ----------

  /** `out` takes a least item each time until `m` is empty. */
  ghost predicate IsDrain<T>(m: multiset<Item<T>>, out: seq<Item<T>>) {
    IsDrainUpTo(m, out, multiset{})
  }

  /** `out` takes a least item each time, and leaves `rest`. */
  ghost predicate IsDrainUpTo<T>(m: multiset<Item<T>>, out: seq<Item<T>>, rest: multiset<Item<T>>)
    decreases |out|
  {
    if out == [] then m == rest
    else Least(m, out[0]) && IsDrainUpTo(m - multiset{out[0]}, out[1..], rest)
  }

  lemma NothingDrained<T>(m: multiset<Item<T>>)
    ensures IsDrainUpTo(m, [], m)
  {
  }

  lemma {:induction false} DrainOneMore<T>(m: multiset<Item<T>>, out: seq<Item<T>>, rest: multiset<Item<T>>, x: Item<T>)
    requires IsDrainUpTo(m, out, rest) && Least(rest, x)
    ensures IsDrainUpTo(m, out + [x], rest - multiset{x})
    decreases |out|
  {
    if out != [] {
      DrainOneMore(m - multiset{out[0]}, out[1..], rest, x);
      assert (out + [x])[1..] == out[1..] + [x];
    }
  }

  lemma {:induction false} DrainKeepsAll<T>(m: multiset<Item<T>>, out: seq<Item<T>>)
    requires IsDrain(m, out)
    ensures multiset(out) == m
    decreases |out|
  {
    if out != [] {
      DrainKeepsAll(m - multiset{out[0]}, out[1..]);
      assert out == [out[0]] + out[1..];
    }
  }

  /** Draining yields every item once, with priorities that never decrease. */
  lemma {:induction false} DrainIsSorted<T>(m: multiset<Item<T>>, out: seq<Item<T>>)
    requires IsDrain(m, out)
    ensures multiset(out) == m
    ensures forall i, j :: 0 <= i < j < |out| ==> out[i].priority <= out[j].priority
    decreases |out|
  {
    DrainKeepsAll(m, out);
    if out != [] {
      DrainIsSorted(m - multiset{out[0]}, out[1..]);
      forall i, j | 0 <= i < j < |out| ensures out[i].priority <= out[j].priority {
        if i == 0 {
          assert out[j] in multiset(out);
        } else {
          assert out[1..][i - 1].priority <= out[1..][j - 1].priority;
        }
      }
    }
  }
}
