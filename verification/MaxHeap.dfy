/**
 The bounded max-heap of storage entries. `Less` puts the largest hashed key first; sifting is that
 of a binary heap in a slice: the children of position `i` are `2 i + 1` and `2 i + 2`.
 */
module MaxHeap {
  /** A live slot: keccak of its key, its key and its value, as 256-bit numbers. */
  datatype Entry = Entry(seckey: nat, key: nat, value: nat)

  predicate Less(a: Entry, b: Entry) {
    a.seckey > b.seckey
  }

  function Parent(i: nat): nat
    requires i > 0
  {
    (i - 1) / 2
  }

  predicate Ordered(h: seq<Entry>, i: nat)
    requires 0 < i < |h|
  {
    h[i].seckey <= h[Parent(i)].seckey
  }

  predicate IsHeap(h: seq<Entry>) {
    forall i | 0 < i < |h| :: Ordered(h, i)
  }

  lemma {:induction false} RootIsMax(h: seq<Entry>, i: nat)
    requires IsHeap(h) && i < |h|
    ensures h[i].seckey <= h[0].seckey
  {
    if i > 0 {
      RootIsMax(h, Parent(i));
      assert Ordered(h, i);
    }
  }

  function Swapped(h: seq<Entry>, i: nat, j: nat): (r: seq<Entry>)
    requires i < |h| && j < |h|
    ensures |r| == |h| && r[i] == h[j] && r[j] == h[i]
    ensures forall k | 0 <= k < |h| && k != i && k != j :: r[k] == h[k]
    ensures multiset(r) == multiset(h)
  {
    h[i := h[j]][j := h[i]]
  }

  /** In order, except that position `j` may be larger than its parent. */
  predicate UpTo(h: seq<Entry>, j: nat)
    requires j < |h|
  {
    && (forall i | 0 < i < |h| && i != j :: Ordered(h, i))
    && (forall i | 0 < i < |h| && j > 0 && Parent(i) == j :: h[i].seckey <= h[Parent(j)].seckey)
  }

  lemma SiftUp(h: seq<Entry>, j: nat)
    requires 0 < j < |h|
    requires UpTo(h, j) && Less(h[j], h[Parent(j)])
    ensures UpTo(Swapped(h, Parent(j), j), Parent(j))
  {
    var p := Parent(j);
    var r := Swapped(h, p, j);
    forall i | 0 < i < |r| && i != p
      ensures Ordered(r, i)
    {
      if i != j {
        assert Ordered(h, i);
        if p > 0 && Parent(i) == p {
          assert Ordered(h, p);
        }
      }
    }
    forall i | 0 < i < |r| && p > 0 && Parent(i) == p
      ensures r[i].seckey <= r[Parent(p)].seckey
    {
      assert Ordered(h, p);
      if i != j {
        assert Ordered(h, i);
      }
    }
  }

  /** In order among the first `n`, except that position `i` may be smaller than its children. */
  predicate DownTo(h: seq<Entry>, i: nat, n: nat)
    requires n <= |h|
  {
    && (forall k | 0 < k < n && Parent(k) != i :: Ordered(h, k))
    && (forall k | 0 < k < n && i > 0 && Parent(k) == i :: h[k].seckey <= h[Parent(i)].seckey)
  }

  lemma SiftDown(h: seq<Entry>, i: nat, j: nat, n: nat)
    requires i < j < n <= |h| && Parent(j) == i
    requires DownTo(h, i, n) && Less(h[j], h[i])
    requires forall k | 0 < k < n && Parent(k) == i :: h[k].seckey <= h[j].seckey
    ensures DownTo(Swapped(h, i, j), j, n)
  {
    var r := Swapped(h, i, j);
    forall k | 0 < k < n && Parent(k) != j
      ensures Ordered(r, k)
    {
      if Parent(k) != i {
        assert Ordered(h, k);
        if k == i {
          assert h[j].seckey <= h[Parent(i)].seckey;
        }
      }
    }
    forall k | 0 < k < n && j > 0 && Parent(k) == j
      ensures r[k].seckey <= r[Parent(j)].seckey
    {
      assert Ordered(h, k);
    }
  }

  class Heap {
    var items: seq<Entry>

    constructor ()
      ensures items == []
    {
      items := [];
    }

    method Push(x: Entry)
      requires IsHeap(items)
      modifies this
      ensures IsHeap(items)
      ensures multiset(items) == old(multiset(items)) + multiset{x}
    {
      items := items + [x];
      forall i | 0 < i < |items| - 1
        ensures Ordered(items, i)
      {
        assert Ordered(old(items), i);
      }
      var j: nat := |items| - 1;
      while j > 0 && Less(items[j], items[Parent(j)])
        invariant j < |items|
        invariant UpTo(items, j)
        invariant multiset(items) == old(multiset(items)) + multiset{x}
        decreases j
      {
        SiftUp(items, j);
        items := Swapped(items, Parent(j), j);
        j := Parent(j);
      }
      assert IsHeap(items) by {
        if j > 0 {
          assert Ordered(items, j);
        }
      }
    }

    /** Takes out an entry with the largest hashed key. */
    method Pop() returns (x: Entry)
      requires IsHeap(items) && items != []
      modifies this
      ensures IsHeap(items)
      ensures multiset(items) + multiset{x} == old(multiset(items))
      ensures forall y | y in old(items) :: y.seckey <= x.seckey
    {
      var n := |items| - 1;
      ghost var start := items;
      RootIsMaxAll(start);
      SwapLast(start);
      items := Swapped(items, 0, n);
      Down(n);
      x := items[n];
      ghost var whole := items;
      items := items[..n];
      assert whole == items + [x];
      forall k | 0 < k < n
        ensures Ordered(items, k)
      {
        assert Ordered(whole, k);
      }
    }

    /** Sifts the root down among the first `n`. */
    method Down(n: nat)
      requires n <= |items|
      requires DownTo(items, 0, n)
      modifies this
      ensures |items| == |old(items)| && items[n..] == old(items)[n..]
      ensures forall k | 0 < k < n :: Ordered(items, k)
      ensures multiset(items) == old(multiset(items))
    {
      hide Swapped, DownTo, Ordered, Less;
      var i: nat := 0;
      while true
        invariant |items| == |old(items)| && forall k | n <= k < |items| :: items[k] == old(items)[k]
        invariant DownTo(items, i, n)
        invariant multiset(items) == old(multiset(items))
        decreases n - i
      {
        if 2 * i + 1 >= n {
          break;
        }
        var j := LargerChild(items, i, n);
        if !Less(items[j], items[i]) {
          break;
        }
        SiftDown(items, i, j, n);
        items := Swapped(items, i, j);
        i := j;
      }
      Settled(items, i, n);
    }
  }

  function LargerChild(h: seq<Entry>, i: nat, n: nat): (j: nat)
    requires 2 * i + 1 < n <= |h|
    ensures i < j < n && Parent(j) == i
    ensures forall k | 0 < k < n && Parent(k) == i :: h[k].seckey <= h[j].seckey
  {
    var j := 2 * i + 1;
    assert forall k | 0 < k < n && Parent(k) == i :: k == 2 * i + 1 || k == 2 * i + 2;
    if j + 1 < n && Less(h[j + 1], h[j]) then j + 1 else j
  }

  /** Once the larger child is not larger, nothing is out of order. */
  lemma Settled(h: seq<Entry>, i: nat, n: nat)
    requires n <= |h|
    requires DownTo(h, i, n)
    requires 2 * i + 1 < n ==> !Less(h[LargerChild(h, i, n)], h[i])
    ensures forall k | 0 < k < n :: Ordered(h, k)
  {
    forall k | 0 < k < n
      ensures Ordered(h, k)
    {
      if Parent(k) == i {
        assert h[k].seckey <= h[LargerChild(h, i, n)].seckey;
      }
    }
  }

  lemma RootIsMaxAll(h: seq<Entry>)
    requires IsHeap(h) && h != []
    ensures forall y | y in h :: y.seckey <= h[0].seckey
  {
    forall y | y in h
      ensures y.seckey <= h[0].seckey
    {
      var k :| 0 <= k < |h| && h[k] == y;
      RootIsMax(h, k);
    }
  }

  /** After the root and the last entry change places, only the root is out of order. */
  lemma SwapLast(h: seq<Entry>)
    requires IsHeap(h) && h != []
    ensures DownTo(Swapped(h, 0, |h| - 1), 0, |h| - 1)
  {
    var r := Swapped(h, 0, |h| - 1);
    forall k | 0 < k < |h| - 1 && Parent(k) != 0
      ensures Ordered(r, k)
    {
      assert Ordered(h, k);
    }
  }
}
