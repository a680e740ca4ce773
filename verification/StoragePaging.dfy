/** Paging through a contract's storage: a range is asked for again from its next key until there is none. */
module StoragePaging {
  import opened Wrappers
  import opened MaxHeap
  import opened SortedEntries
  import opened StorageSlots
  import opened StorageRange

  /** The results hold these entries, page by page, each no more than asked for, and only the last has no next key. */
  predicate Shows(results: seq<StorageRangeResult>, pages: seq<seq<Entry>>, max: nat) {
    && |results| == |pages|
    && forall i | 0 <= i < |results| ::
         && results[i].storage == Stored(pages[i])
         && |pages[i]| <= max
         && (results[i].nextKey.None? ==> i == |results| - 1)
  }

  lemma {:induction false} ConcatAppend(pages: seq<seq<Entry>>, page: seq<Entry>)
    ensures Concat(pages + [page]) == Concat(pages) + page
  {
    if pages == [] {
      assert [page][1..] == [];
    } else {
      ConcatAppend(pages[1..], page);
      assert (pages + [page])[1..] == pages[1..] + [page];
    }
  }

  /** One more page, and what remains after it. */
  lemma Advance(sorted: seq<Entry>, rank: Rank, start: nat, max: nat, pages: seq<seq<Entry>>)
    requires Ascending(sorted, rank) && max >= 1
    requires Concat(pages) + From(sorted, rank, start) == sorted
    ensures var (page, next) := Page(From(sorted, rank, start), rank, max);
            && |page| <= max
            && (next.None? ==> Concat(pages + [page]) == sorted)
            && (next.Some? ==>
                && Concat(pages + [page]) + From(sorted, rank, next.value) == sorted
                && |From(sorted, rank, next.value)| < |From(sorted, rank, start)|)
  {
    hide From, Concat;
    var rest := From(sorted, rank, start);
    var (page, next) := Page(rest, rank, max);
    ConcatAppend(pages, page);
    if next.Some? {
      NextPage(sorted, rank, start, max);
      assert rest == rest[..max] + rest[max..];
      assert Concat(pages) + page + rest[max..] == Concat(pages) + (page + rest[max..]);
    }
  }

  /** In hashed order the pages hold every live entry once, in ascending order of the hashed key. */
  method AllPagesGethCompat(slots: seq<Slot>, maxResult: int, hash: Hash)
      returns (results: seq<StorageRangeResult>, ghost pages: seq<seq<Entry>>)
    requires maxResult >= 1
    requires DistinctRanks(Live(slots, hash), SeckeyOf())
    ensures Shows(results, pages, maxResult)
    ensures results != [] && results[|results| - 1].nextKey == None
    ensures Concat(pages) == Sort(Live(slots, hash), SeckeyOf())
    ensures Ascending(Concat(pages), SeckeyOf()) && multiset(Concat(pages)) == multiset(Live(slots, hash))
  {
    hide DistinctRanks, Live, Sort, From, Page, Concat, Eligible, Ascending;
    ghost var sorted := Sort(Live(slots, hash), SeckeyOf());
    SortAscends(Live(slots, hash), SeckeyOf());
    WholeFrom(sorted, SeckeyOf());
    results, pages := [], [];
    var start: Option<nat> := None;
    while true
      invariant Shows(results, pages, maxResult) && forall i | 0 <= i < |results| :: results[i].nextKey.Some?
      invariant Concat(pages) + From(sorted, SeckeyOf(), start.GetOr(0)) == sorted
      decreases |From(sorted, SeckeyOf(), start.GetOr(0))|
    {
      EligibleIsSuffix(slots, hash, start);
      Advance(sorted, SeckeyOf(), start.GetOr(0), maxResult, pages);
      var result := StorageRangeAtGethCompat(slots, start, maxResult, hash);
      ghost var page := Page(From(sorted, SeckeyOf(), start.GetOr(0)), SeckeyOf(), maxResult).0;
      results, pages := results + [result], pages + [page];
      start := result.nextKey;
      if start.None? {
        break;
      }
    }
  }

  lemma WholeFrom(s: seq<Entry>, rank: Rank)
    ensures From(s, rank, 0) == s
    ensures Concat([]) + s == s
  {
  }

  /** In raw order the pages hold every live entry once, in the order of the database. */
  method AllPagesErigon(slots: seq<Slot>, maxResult: int, hash: Hash)
      returns (results: seq<StorageRangeResult>, ghost pages: seq<seq<Entry>>)
    requires maxResult >= 1
    requires KeysAscend(slots)
    requires DistinctRanks(Live(slots, hash), SeckeyOf())
    ensures Shows(results, pages, maxResult)
    ensures results != [] && results[|results| - 1].nextKey == None
    ensures Concat(pages) == Live(slots, hash) && Ascending(Concat(pages), KeyOf())
  {
    hide DistinctRanks, Live, From, Page, Concat, RangeFrom, Ascending, KeysAscend;
    ghost var live := Live(slots, hash);
    LiveAscends(slots, hash);
    WholeFrom(live, KeyOf());
    results, pages := [], [];
    var start: nat := 0;
    while true
      invariant Shows(results, pages, maxResult) && forall i | 0 <= i < |results| :: results[i].nextKey.Some?
      invariant Concat(pages) + From(live, KeyOf(), start) == live
      decreases |From(live, KeyOf(), start)|
    {
      RangeIsSuffix(slots, hash, start);
      FromDistinct(live, KeyOf(), SeckeyOf(), start);
      Advance(live, KeyOf(), start, maxResult, pages);
      var result := StorageRangeAtErigon(slots, start, maxResult, hash);
      ghost var page := Page(From(live, KeyOf(), start), KeyOf(), maxResult).0;
      results, pages := results + [result], pages + [page];
      if result.nextKey.None? {
        break;
      }
      start := result.nextKey.value;
    }
  }
}
