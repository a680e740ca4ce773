/**
 A page of a contract's storage, in the order of hashed keys or in the order of raw keys. The slots
 a database iterator yields are an argument here, and so is the hash; 32-byte keys are numbers.
 */
module StorageRange {
  import opened Wrappers
  import opened ByteStrings
  import opened MaxHeap
  import opened SortedEntries
  import opened StorageSlots

  function Clamp(n: int): nat {
    if n < 0 then 0 else n
  }

  // ---------- Hashed order ----------

  /** The heap holds the smallest entries seen, up to the limit. */
  ghost predicate HoldsSmallest(heap: seq<Entry>, evicted: seq<Entry>, seen: seq<Entry>, limit: nat) {
    && IsHeap(heap)
    && multiset(heap) + multiset(evicted) == multiset(seen)
    && |heap| <= limit
    && (evicted != [] ==> |heap| == limit)
    && forall x, y | x in heap && y in evicted :: x.seckey <= y.seckey
  }

  /** A full heap skips an entry that is not below its maximum. */
  lemma SkipLarge(heap: seq<Entry>, evicted: seq<Entry>, seen: seq<Entry>, limit: nat, e: Entry)
    requires HoldsSmallest(heap, evicted, seen, limit)
    requires |heap| == limit > 0 && e.seckey >= heap[0].seckey
    ensures HoldsSmallest(heap, evicted + [e], seen + [e], limit)
  {
    RootIsMaxAll(heap);
    assert forall y | y in evicted + [e] :: y in evicted || y == e;
  }

  /** Otherwise the entry goes in, and the largest goes out if there are too many. */
  lemma Admit(heap: seq<Entry>, evicted: seq<Entry>, seen: seq<Entry>, limit: nat, e: Entry, pushed: seq<Entry>)
    requires HoldsSmallest(heap, evicted, seen, limit)
    requires |heap| == limit ==> limit > 0 && e.seckey < heap[0].seckey
    requires IsHeap(pushed) && multiset(pushed) == multiset(heap) + multiset{e}
    ensures |pushed| == |heap| + 1
    ensures |pushed| <= limit ==> HoldsSmallest(pushed, evicted, seen + [e], limit)
  {
    SameMembers(pushed, heap + [e]);
    if evicted == [] {
    } else {
      assert |heap| == limit;
    }
  }

  lemma Evict(heap: seq<Entry>, evicted: seq<Entry>, seen: seq<Entry>, limit: nat, e: Entry,
              pushed: seq<Entry>, popped: seq<Entry>, x: Entry)
    requires HoldsSmallest(heap, evicted, seen, limit)
    requires |heap| == limit > 0 && e.seckey < heap[0].seckey
    requires multiset(pushed) == multiset(heap) + multiset{e}
    requires IsHeap(popped) && multiset(popped) + multiset{x} == multiset(pushed)
    requires forall y | y in pushed :: y.seckey <= x.seckey
    ensures HoldsSmallest(popped, evicted + [x], seen + [e], limit)
  {
    SameMembers(pushed, heap + [e]);
    SameMembers(pushed, popped + [x]);
    assert multiset(evicted + [x]) == multiset(evicted) + multiset{x};
    assert multiset(seen + [e]) == multiset(seen) + multiset{e};
    assert multiset(popped) + multiset(evicted + [x]) == multiset(pushed) + multiset(evicted);
    assert multiset(pushed) + multiset(evicted) == multiset(heap) + multiset(evicted) + multiset{e};
    assert x in popped + [x];
    forall p, q | p in popped && q in evicted + [x]
      ensures p.seckey <= q.seckey
    {
      assert p in popped + [x];
      assert p in heap + [e];
      assert heap[0] in heap;
      if q in evicted {
        assert heap[0].seckey <= q.seckey;
      }
    }
  }

  method StorageRangeAtGethCompat(slots: seq<Slot>, start: Option<nat>, maxResult: int, hash: Hash)
      returns (result: StorageRangeResult)
    ensures DistinctRanks(Eligible(slots, hash, start), SeckeyOf()) ==>
              result == ResultOf(Page(Sort(Eligible(slots, hash, start), SeckeyOf()), SeckeyOf(), Clamp(maxResult)))
    ensures DistinctHashes(slots, hash) ==>
              ShowsSlots(result, slots, true, hash, start.GetOr(0), if maxResult < 0 then 0 else maxResult)
  {
    hide HoldsSmallest, IsHeap, Eligible, EntryOf, Page, Sort, ShowsSlots, DistinctHashes;
    var max := Clamp(maxResult);
    var limit := max + 1;
    var h := new Heap();
    ghost var evicted: seq<Entry> := [];
    EmptyHeap(slots, hash, start, limit);
    for i := 0 to |slots|
      invariant HoldsSmallest(h.items, evicted, Eligible(slots[..i], hash, start), limit)
    {
      ghost var seen := Eligible(slots[..i], hash, start);
      var slot := slots[i];
      EligibleNext(slots, hash, start, i);
      if slot.value == [] {
        continue;
      }
      var e := EntryOf(slot, hash);
      if start.Some? && e.seckey < start.value {
        continue;
      }
      HeapFacts(h.items, evicted, seen, limit);
      if |h.items| == limit && e.seckey >= h.items[0].seckey {
        SkipLarge(h.items, evicted, seen, limit, e);
        evicted := evicted + [e];
        continue;
      }
      ghost var heap := h.items;
      h.Push(e);
      ghost var pushed := h.items;
      Admit(heap, evicted, seen, limit, e, pushed);
      if |h.items| > limit {
        var x := h.Pop();
        Evict(heap, evicted, seen, limit, e, pushed, h.items, x);
        evicted := evicted + [x];
      }
    }
    assert slots[..|slots|] == slots;
    ghost var eligible := Eligible(slots, hash, start);
    HeapFacts(h.items, evicted, eligible, limit);
    var entries := Sort(h.items, SeckeyOf());
    SameMembers(entries, h.items);
    SelectedPage(h.items, evicted, eligible, max);
    result := FillResult(entries, max);
    if DistinctHashes(slots, hash) {
      GethLists(slots, hash, start);
      PageShowsSlots(Sort(eligible, SeckeyOf()), slots, true, hash, start.GetOr(0), max);
    }
  }

  lemma EligibleNext(slots: seq<Slot>, hash: Hash, start: Option<nat>, i: nat)
    requires i < |slots|
    ensures Eligible(slots[..i + 1], hash, start) ==
            if slots[i].value == [] || !InRange(start, EntryOf(slots[i], hash).seckey)
            then Eligible(slots[..i], hash, start)
            else Eligible(slots[..i], hash, start) + [EntryOf(slots[i], hash)]
  {
    assert slots[..i + 1][..i] == slots[..i];
  }

  lemma EmptyHeap(slots: seq<Slot>, hash: Hash, start: Option<nat>, limit: nat)
    ensures HoldsSmallest([], [], Eligible(slots[..0], hash, start), limit)
  {
  }

  lemma HeapFacts(heap: seq<Entry>, evicted: seq<Entry>, seen: seq<Entry>, limit: nat)
    requires HoldsSmallest(heap, evicted, seen, limit)
    ensures IsHeap(heap) && |heap| <= limit
  {
  }

  /** The sorted heap gives the same page as sorting everything. */
  lemma SelectedPage(heap: seq<Entry>, evicted: seq<Entry>, seen: seq<Entry>, max: nat)
    requires HoldsSmallest(heap, evicted, seen, max + 1)
    ensures DistinctRanks(seen, SeckeyOf()) ==>
              Page(Sort(heap, SeckeyOf()), SeckeyOf(), max) == Page(Sort(seen, SeckeyOf()), SeckeyOf(), max)
  {
    hide IsHeap;
    hide Sort, DistinctRanks;
    if DistinctRanks(seen, SeckeyOf()) {
      var low, high := Sort(heap, SeckeyOf()), Sort(evicted, SeckeyOf());
      LowPartFirst(heap, evicted, seen, SeckeyOf());
      SameMembers(low, heap);
      SameMembers(high, evicted);
      if evicted == [] {
        assert high == [];
        assert low + high == low;
      } else {
        assert |low| == max + 1;
        assert (low + high)[..max] == low[..max];
        assert (low + high)[max] == low[max];
      }
    }
  }

  method FillResult(entries: seq<Entry>, max: nat) returns (result: StorageRangeResult)
    ensures result == ResultOf(Page(entries, SeckeyOf(), max))
  {
    var storage: map<nat, (nat, nat)> := map[];
    for i := 0 to |entries|
      invariant i <= max
      invariant storage == Stored(entries[..i])
    {
      if i >= max {
        return StorageRangeResult(storage, Some(entries[i].seckey));
      }
      assert entries[..i + 1][..i] == entries[..i];
      storage := storage[entries[i].seckey := (entries[i].key, entries[i].value)];
    }
    assert entries[..|entries|] == entries;
    return StorageRangeResult(storage, None);
  }

  // ---------- Raw order ----------

  /** The slots an iterator yields that starts at a raw key. */
  function RangeFrom(slots: seq<Slot>, start: nat): seq<Slot> {
    if slots == [] || slots[0].key >= start then slots else RangeFrom(slots[1..], start)
  }

  method StorageRangeAtErigon(slots: seq<Slot>, start: nat, maxResult: int, hash: Hash)
      returns (result: StorageRangeResult)
    ensures var live := Live(RangeFrom(slots, start), hash);
            DistinctRanks(live, SeckeyOf()) ==> result == ResultOf(Page(live, KeyOf(), Clamp(maxResult)))
    ensures KeysAscend(slots) && DistinctHashes(slots, hash) ==>
              ShowsSlots(result, slots, false, hash, start, if maxResult < 0 then 0 else maxResult)
  {
    hide Live, DistinctRanks, Stored, ShowsSlots, DistinctHashes, KeysAscend;
    var rows := RangeFrom(slots, start);
    var storage, i := CollectPage(rows, maxResult, hash);
    var nextKey := FindNext(rows, i, hash);
    LiveSplit(rows, hash, i);
    ghost var page, rest := Live(rows[..i], hash), Live(rows[i..], hash);
    if rest == [] {
      assert page + rest == page;
    } else {
      LiveNothing(hash);
      assert i == |rows| ==> rows[i..] == [];
      assert (page + rest)[..|page|] == page;
      assert (page + rest)[|page|] == rest[0];
    }
    if KeysAscend(slots) && DistinctHashes(slots, hash) {
      ErigonLists(slots, hash, start);
      PageShowsSlots(Live(rows, hash), slots, false, hash, start, Clamp(maxResult));
    }
    return StorageRangeResult(storage, nextKey);
  }

  lemma LiveNothing(hash: Hash)
    ensures Live([], hash) == []
  {
  }

  /** Live rows until the map is full. */
  method CollectPage(rows: seq<Slot>, maxResult: int, hash: Hash) returns (storage: map<nat, (nat, nat)>, i: nat)
    ensures i <= |rows|
    ensures DistinctRanks(Live(rows, hash), SeckeyOf()) ==>
              && storage == Stored(Live(rows[..i], hash))
              && |Live(rows[..i], hash)| <= Clamp(maxResult)
              && (i == |rows| || |Live(rows[..i], hash)| == Clamp(maxResult))
  {
    hide DistinctRanks, EntryOf, Stored, Live;
    storage := map[];
    i := 0;
    ghost var page: seq<Entry> := [];
    StoredNothing(rows, hash);
    while |storage| < maxResult && i < |rows|
      invariant i <= |rows|
      invariant |storage| <= Clamp(maxResult)
      invariant page == Live(rows[..i], hash)
      invariant DistinctRanks(Live(rows, hash), SeckeyOf()) ==> storage == Stored(page) && |storage| == |page|
    {
      LiveNext(rows, hash, i);
      if rows[i].value != [] {
        var e := EntryOf(rows[i], hash);
        if DistinctRanks(Live(rows, hash), SeckeyOf()) {
          NewKey(rows, hash, i);
        }
        StoredNext(page, e);
        page := page + [e];
        storage := storage[e.seckey := (e.key, e.value)];
      }
      i := i + 1;
    }
  }

  lemma StoredNothing(rows: seq<Slot>, hash: Hash)
    ensures Live(rows[..0], hash) == [] && Stored([]) == map[]
  {
  }

  lemma StoredNext(page: seq<Entry>, e: Entry)
    ensures Stored(page + [e]) == Stored(page)[e.seckey := (e.key, e.value)]
  {
    assert (page + [e])[..|page|] == page;
  }

  lemma LiveNext(rows: seq<Slot>, hash: Hash, i: nat)
    requires i < |rows|
    ensures Live(rows[..i + 1], hash) ==
            if rows[i].value == [] then Live(rows[..i], hash) else Live(rows[..i], hash) + [EntryOf(rows[i], hash)]
  {
    assert rows[..i + 1][..i] == rows[..i];
  }

  /** The key of the next live row. */
  method FindNext(rows: seq<Slot>, from: nat, hash: Hash) returns (nextKey: Option<nat>)
    requires from <= |rows|
    ensures nextKey == if Live(rows[from..], hash) == [] then None else Some(Live(rows[from..], hash)[0].key)
  {
    var rest := rows[from..];
    for i := 0 to |rest|
      invariant Live(rest[..i], hash) == []
    {
      assert rest[..i + 1][..i] == rest[..i];
      if rest[i].value != [] {
        LiveSplit(rest, hash, i + 1);
        return Some(rest[i].key);
      }
    }
    assert rest[..|rest|] == rest;
    return None;
  }

  lemma {:induction false} LiveSplit(rows: seq<Slot>, hash: Hash, k: nat)
    requires k <= |rows|
    ensures Live(rows, hash) == Live(rows[..k], hash) + Live(rows[k..], hash)
    decreases |rows|
  {
    if k == |rows| {
      assert rows[..k] == rows && rows[k..] == [];
    } else {
      var front := rows[..|rows| - 1];
      LiveSplit(front, hash, k);
      assert front[..k] == rows[..k];
      assert rows[k..][..|rows[k..]| - 1] == front[k..];
    }
  }

  lemma NewKey(rows: seq<Slot>, hash: Hash, i: nat)
    requires DistinctRanks(Live(rows, hash), SeckeyOf())
    requires i < |rows| && rows[i].value != []
    ensures EntryOf(rows[i], hash).seckey !in Stored(Live(rows[..i], hash))
  {
    hide EntryOf, Live, Stored;
    var before, e := Live(rows[..i], hash), EntryOf(rows[i], hash);
    LiveNext(rows, hash, i);
    LiveSplit(rows, hash, i + 1);
    StoredKeys(before, e.seckey);
    var live := Live(rows, hash);
    assert live[|before|] == e;
    forall j | 0 <= j < |before|
      ensures before[j].seckey != e.seckey
    {
      assert live[j] == before[j];
      assert SeckeyOf()(live[j]) != SeckeyOf()(live[|before|]);
    }
  }

  // ---------- Paging through a contract's storage ----------

  /** In hashed order, a page from a start is the page of the sorted live entries from there on. */
  lemma EligibleIsSuffix(slots: seq<Slot>, hash: Hash, start: Option<nat>)
    requires DistinctRanks(Live(slots, hash), SeckeyOf())
    ensures DistinctRanks(Eligible(slots, hash, start), SeckeyOf())
    ensures Ascending(Sort(Live(slots, hash), SeckeyOf()), SeckeyOf())
    ensures Sort(Eligible(slots, hash, start), SeckeyOf()) ==
            From(Sort(Live(slots, hash), SeckeyOf()), SeckeyOf(), if start.None? then 0 else start.value)
  {
    hide Eligible, Live, Sort, From, DistinctRanks;
    var live, eligible := Live(slots, hash), Eligible(slots, hash, start);
    var from := if start.None? then 0 else start.value;
    var sorted, part := Sort(live, SeckeyOf()), Sort(eligible, SeckeyOf());
    EligibleMembers(slots, hash, start, Entry(0, 0, 0));
    PartDistinct(eligible, live, SeckeyOf());
    SortAscends(live, SeckeyOf());
    SortAscends(eligible, SeckeyOf());
    SameMembers(sorted, live);
    SameMembers(part, eligible);
    FromMembers(sorted, SeckeyOf(), from);
    forall e
      ensures e in part <==> e in From(sorted, SeckeyOf(), from)
    {
      EligibleMembers(slots, hash, start, e);
    }
    AscendingUnique(part, From(sorted, SeckeyOf(), from), SeckeyOf());
  }

  lemma GethLists(slots: seq<Slot>, hash: Hash, start: Option<nat>)
    requires DistinctHashes(slots, hash)
    ensures DistinctRanks(Eligible(slots, hash, start), SeckeyOf())
    ensures Lists(Sort(Eligible(slots, hash, start), SeckeyOf()), slots, true, hash, start.GetOr(0))
  {
    hide Live, Eligible, Sort;
    var eligible := Eligible(slots, hash, start);
    var sorted := Sort(eligible, SeckeyOf());
    LiveDistinct(slots, hash);
    EligibleMembers(slots, hash, start, Entry(0, 0, 0));
    PartDistinct(eligible, Live(slots, hash), SeckeyOf());
    SortAscends(eligible, SeckeyOf());
    SameMembers(sorted, eligible);
    forall e
      ensures e in sorted <==>
              exists i | 0 <= i < |slots| ::
                Listed(slots, true, hash, start.GetOr(0), i) && e == EntryOf(slots[i], hash)
    {
      EligibleMembers(slots, hash, start, e);
      LiveMembers(slots, hash, e);
    }
  }

  lemma ErigonLists(slots: seq<Slot>, hash: Hash, start: nat)
    requires KeysAscend(slots) && DistinctHashes(slots, hash)
    ensures DistinctRanks(Live(RangeFrom(slots, start), hash), SeckeyOf())
    ensures Lists(Live(RangeFrom(slots, start), hash), slots, false, hash, start)
  {
    hide Live, RangeFrom, From;
    var rows := Live(RangeFrom(slots, start), hash);
    RangeIsSuffix(slots, hash, start);
    LiveDistinct(slots, hash);
    LiveAscends(slots, hash);
    FromMembers(Live(slots, hash), KeyOf(), start);
    FromDistinct(Live(slots, hash), KeyOf(), SeckeyOf(), start);
    forall e
      ensures e in rows <==>
              exists i | 0 <= i < |slots| :: Listed(slots, false, hash, start, i) && e == EntryOf(slots[i], hash)
    {
      LiveMembers(slots, hash, e);
    }
  }

  /** In hashed order, following the next key visits every live entry exactly once. */
  lemma GethPagesCover(slots: seq<Slot>, hash: Hash, max: nat)
    requires DistinctRanks(Live(slots, hash), SeckeyOf())
    requires max >= 1
    ensures var sorted := Sort(Live(slots, hash), SeckeyOf());
            && Ascending(sorted, SeckeyOf())
            && Concat(Pages(sorted, SeckeyOf(), 0, max)) == sorted
            && multiset(Concat(Pages(sorted, SeckeyOf(), 0, max))) == multiset(Live(slots, hash))
  {
    var sorted := Sort(Live(slots, hash), SeckeyOf());
    SortAscends(Live(slots, hash), SeckeyOf());
    PagesCover(sorted, SeckeyOf(), 0, max);
  }

  lemma {:induction false} LiveAscends(slots: seq<Slot>, hash: Hash)
    requires KeysAscend(slots)
    ensures Ascending(Live(slots, hash), KeyOf())
    ensures forall e | e in Live(slots, hash) :: exists i | 0 <= i < |slots| :: slots[i].key == e.key
  {
    if slots != [] {
      var front, last := slots[..|slots| - 1], slots[|slots| - 1];
      LiveAscends(front, hash);
      var live := Live(front, hash);
      forall e | e in Live(slots, hash)
        ensures exists i | 0 <= i < |slots| :: slots[i].key == e.key
      {
        if e in live {
          var i :| 0 <= i < |front| && front[i].key == e.key;
          assert slots[i].key == e.key;
        } else {
          assert slots[|slots| - 1].key == e.key;
        }
      }
      forall i | 0 <= i < |live|
        ensures live[i].key < last.key
      {
        assert live[i] in live;
      }
    }
  }

  /** In raw order, the iterator's start cuts off exactly the entries before it. */
  lemma {:induction false} RangeIsSuffix(slots: seq<Slot>, hash: Hash, start: nat)
    requires KeysAscend(slots)
    ensures Live(RangeFrom(slots, start), hash) == From(Live(slots, hash), KeyOf(), start)
  {
    if slots != [] {
      var rest := slots[1..];
      LiveSplit(slots, hash, 1);
      LiveOne(slots, hash);
      if slots[0].key < start {
        RangeIsSuffix(rest, hash, start);
        FromSkips(Live(slots[..1], hash), Live(rest, hash), start);
      } else {
        FromKeeps(slots, hash, start);
      }
    }
  }

  lemma LiveOne(slots: seq<Slot>, hash: Hash)
    requires slots != []
    ensures Live(slots[..1], hash) == if slots[0].value == [] then [] else [EntryOf(slots[0], hash)]
  {
    assert slots[..1][..0] == [];
  }

  lemma FromSkips(head: seq<Entry>, tail: seq<Entry>, start: nat)
    requires |head| <= 1 && forall e | e in head :: e.key < start
    ensures From(head + tail, KeyOf(), start) == From(tail, KeyOf(), start)
  {
    if head == [] {
      assert head + tail == tail;
    } else {
      assert head[0] in head;
      assert (head + tail)[1..] == tail;
    }
  }

  lemma FromKeeps(slots: seq<Slot>, hash: Hash, start: nat)
    requires KeysAscend(slots) && slots != [] && slots[0].key >= start
    ensures From(Live(slots, hash), KeyOf(), start) == Live(slots, hash)
  {
    LiveAscends(slots, hash);
    var live := Live(slots, hash);
    if live != [] {
      assert live[0] in live;
      var i :| 0 <= i < |slots| && slots[i].key == live[0].key;
      assert slots[0].key <= slots[i].key;
    }
  }

  /** In raw order, following the next key visits every live entry exactly once. */
  lemma ErigonPagesCover(slots: seq<Slot>, hash: Hash, max: nat)
    requires KeysAscend(slots)
    requires max >= 1
    ensures Ascending(Live(slots, hash), KeyOf())
    ensures Concat(Pages(Live(slots, hash), KeyOf(), 0, max)) == Live(slots, hash)
  {
    LiveAscends(slots, hash);
    PagesCover(Live(slots, hash), KeyOf(), 0, max);
  }
}
