/** Storage entries in ascending order of a rank, and paging through them. */
module SortedEntries {
  import opened Wrappers
  import opened MaxHeap

  type Rank = Entry -> nat

  predicate Ascending(s: seq<Entry>, rank: Rank) {
    forall i, j | 0 <= i < j < |s| :: rank(s[i]) < rank(s[j])
  }

  predicate DistinctRanks(s: seq<Entry>, rank: Rank) {
    forall i, j | 0 <= i < j < |s| :: rank(s[i]) != rank(s[j])
  }

  function Insert(x: Entry, s: seq<Entry>, rank: Rank): (r: seq<Entry>)
    ensures multiset(r) == multiset(s) + multiset{x}
  {
    if s == [] || rank(x) <= rank(s[0]) then [x] + s
    else
      assert s == [s[0]] + s[1..];
      [s[0]] + Insert(x, s[1..], rank)
  }

  function Sort(s: seq<Entry>, rank: Rank): (r: seq<Entry>)
    ensures multiset(r) == multiset(s)
  {
    if s == [] then [] else
      assert s == [s[0]] + s[1..];
      Insert(s[0], Sort(s[1..], rank), rank)
  }

  lemma SameMembers(a: seq<Entry>, b: seq<Entry>)
    requires multiset(a) == multiset(b)
    ensures |a| == |b| && forall x :: x in a <==> x in b
  {
    assert |multiset(a)| == |a| && |multiset(b)| == |b|;
    forall x
      ensures x in a <==> x in b
    {
      assert x in a <==> x in multiset(a);
      assert x in b <==> x in multiset(b);
    }
  }

  lemma {:induction false} InsertAscends(x: Entry, s: seq<Entry>, rank: Rank)
    requires Ascending(s, rank)
    requires forall y | y in s :: rank(y) != rank(x)
    ensures Ascending(Insert(x, s, rank), rank)
  {
    if s != [] && rank(x) > rank(s[0]) {
      InsertAscends(x, s[1..], rank);
      var r := Insert(x, s[1..], rank);
      SameMembers(r, s[1..] + [x]);
      forall j | 0 <= j < |r|
        ensures rank(s[0]) < rank(r[j])
      {
        assert r[j] in s[1..] + [x];
      }
    }
  }

  /** Entries of distinct rank are sorted strictly. */
  lemma {:induction false} SortAscends(s: seq<Entry>, rank: Rank)
    requires DistinctRanks(s, rank)
    ensures Ascending(Sort(s, rank), rank)
  {
    if s != [] {
      var rest := s[1..];
      SortAscends(rest, rank);
      SameMembers(Sort(rest, rank), rest);
      forall y | y in Sort(rest, rank)
        ensures rank(y) != rank(s[0])
      {
        var j :| 0 <= j < |rest| && rest[j] == y;
        assert s[j + 1] == y;
      }
      InsertAscends(s[0], Sort(rest, rank), rank);
    }
  }

  /** An ascending sequence is determined by its members. */
  lemma {:induction false} AscendingUnique(a: seq<Entry>, b: seq<Entry>, rank: Rank)
    requires Ascending(a, rank) && Ascending(b, rank)
    requires forall x :: x in a <==> x in b
    ensures a == b
  {
    assert a != [] ==> a[0] in b;
    assert b != [] ==> b[0] in a;
    if a != [] && b != [] {
      TailMembers(a, rank);
      TailMembers(b, rank);
      AscendingUnique(a[1..], b[1..], rank);
      assert a == [a[0]] + a[1..] && b == [b[0]] + b[1..];
    }
  }

  lemma TailMembers(s: seq<Entry>, rank: Rank)
    requires s != [] && Ascending(s, rank)
    ensures Ascending(s[1..], rank)
    ensures forall x :: x in s[1..] <==> x in s && x != s[0]
    ensures forall x | x in s :: rank(s[0]) <= rank(x)
  {
    forall x
      ensures x in s[1..] <==> x in s && x != s[0]
    {
      if x in s && x != s[0] {
        var i :| 0 <= i < |s| && s[i] == x;
        assert s[1..][i - 1] == x;
      }
      if x in s[1..] {
        var i :| 0 <= i < |s[1..]| && s[1..][i] == x;
        assert s[i + 1] == x;
      }
    }
  }

  lemma ConcatAscends(a: seq<Entry>, b: seq<Entry>, rank: Rank)
    requires Ascending(a, rank) && Ascending(b, rank)
    requires forall x, y | x in a && y in b :: rank(x) < rank(y)
    ensures Ascending(a + b, rank)
  {
    forall i, j | 0 <= i < j < |a + b|
      ensures rank((a + b)[i]) < rank((a + b)[j])
    {
      if i < |a| <= j {
        assert a[i] in a && b[j - |a|] in b;
      }
    }
  }

  // ---------- Selecting the smallest ----------

  lemma {:induction false} CountOne(s: seq<Entry>, rank: Rank, x: Entry)
    requires DistinctRanks(s, rank)
    ensures multiset(s)[x] <= 1
  {
    if s != [] {
      assert s == [s[0]] + s[1..];
      CountOne(s[1..], rank, x);
      forall j | 0 <= j < |s[1..]|
        ensures rank(s[1..][j]) != rank(s[0])
      {
        assert s[1..][j] == s[j + 1];
      }
    }
  }

  lemma CountTwo(s: seq<Entry>, i: nat, j: nat)
    requires i < j < |s| && s[i] == s[j]
    ensures multiset(s)[s[i]] >= 2
  {
    assert s == s[..j] + s[j..];
    assert s[i] in s[..j] && s[j] in s[j..];
  }

  lemma MembersByRank(s: seq<Entry>, rank: Rank, x: Entry, y: Entry)
    requires DistinctRanks(s, rank) && x in s && y in s && rank(x) == rank(y)
    ensures x == y
  {
    var i :| 0 <= i < |s| && s[i] == x;
    var j :| 0 <= j < |s| && s[j] == y;
  }

  lemma PartDistinct(part: seq<Entry>, whole: seq<Entry>, rank: Rank)
    requires DistinctRanks(whole, rank)
    requires multiset(part) <= multiset(whole)
    ensures DistinctRanks(part, rank)
  {
    forall i, j | 0 <= i < j < |part|
      ensures rank(part[i]) != rank(part[j])
    {
      assert part[i] in multiset(part) && part[j] in multiset(part);
      assert part[i] in multiset(whole) && part[j] in multiset(whole);
      if rank(part[i]) == rank(part[j]) {
        MembersByRank(whole, rank, part[i], part[j]);
        CountTwo(part, i, j);
        CountOne(whole, rank, part[i]);
      }
    }
  }

  lemma PartsApart(low: seq<Entry>, high: seq<Entry>, whole: seq<Entry>, rank: Rank, x: Entry, y: Entry)
    requires DistinctRanks(whole, rank)
    requires multiset(low) + multiset(high) == multiset(whole)
    requires x in low && y in high
    ensures rank(x) != rank(y)
  {
    assert x in multiset(low) && y in multiset(high);
    assert x in multiset(whole) && y in multiset(whole);
    if rank(x) == rank(y) {
      MembersByRank(whole, rank, x, y);
      CountOne(whole, rank, x);
    }
  }

  /** Entries split into a low and a high part: the sorted low part begins the sorted whole. */
  lemma LowPartFirst(low: seq<Entry>, high: seq<Entry>, whole: seq<Entry>, rank: Rank)
    requires DistinctRanks(whole, rank)
    requires multiset(low) + multiset(high) == multiset(whole)
    requires forall x, y | x in low && y in high :: rank(x) <= rank(y)
    ensures Sort(whole, rank) == Sort(low, rank) + Sort(high, rank)
  {
    PartDistinct(low, whole, rank);
    PartDistinct(high, whole, rank);
    SortAscends(low, rank);
    SortAscends(high, rank);
    SortAscends(whole, rank);
    SameMembers(Sort(low, rank), low);
    SameMembers(Sort(high, rank), high);
    forall x, y | x in Sort(low, rank) && y in Sort(high, rank)
      ensures rank(x) < rank(y)
    {
      PartsApart(low, high, whole, rank, x, y);
    }
    var joined := Sort(low, rank) + Sort(high, rank);
    ConcatAscends(Sort(low, rank), Sort(high, rank), rank);
    assert multiset(joined) == multiset(Sort(whole, rank));
    SameMembers(joined, Sort(whole, rank));
    AscendingUnique(joined, Sort(whole, rank), rank);
  }

  // ---------- Paging ----------

  /** The entries from a rank on. */
  function From(s: seq<Entry>, rank: Rank, start: nat): (r: seq<Entry>)
    ensures |r| <= |s|
  {
    if s == [] || rank(s[0]) >= start then s else From(s[1..], rank, start)
  }

  lemma {:induction false} FromMembers(s: seq<Entry>, rank: Rank, start: nat)
    requires Ascending(s, rank)
    ensures Ascending(From(s, rank, start), rank)
    ensures forall x :: x in From(s, rank, start) <==> x in s && rank(x) >= start
  {
    if s != [] && rank(s[0]) < start {
      TailMembers(s, rank);
      FromMembers(s[1..], rank, start);
    } else if s != [] {
      TailMembers(s, rank);
    }
  }

  lemma {:induction false} FromDistinct(s: seq<Entry>, rank: Rank, other: Rank, start: nat)
    requires DistinctRanks(s, other)
    ensures DistinctRanks(From(s, rank, start), other)
  {
    if s != [] && rank(s[0]) < start {
      FromDistinct(s[1..], rank, other, start);
    }
  }

  /** A page, and the rank of the entry after it. */
  function Page(s: seq<Entry>, rank: Rank, max: nat): (seq<Entry>, Option<nat>) {
    if |s| > max then (s[..max], Some(rank(s[max]))) else (s, None)
  }

  /** Starting again at the next entry's rank continues right after the page. */
  lemma NextPage(s: seq<Entry>, rank: Rank, start: nat, max: nat)
    requires Ascending(s, rank)
    requires Page(From(s, rank, start), rank, max).1.Some?
    ensures var rest := From(s, rank, start);
            From(s, rank, Page(rest, rank, max).1.value) == rest[max..]
  {
    hide From;
    var rest := From(s, rank, start);
    var next := rank(rest[max]);
    FromMembers(s, rank, start);
    FromMembers(s, rank, next);
    assert rest[max] in rest;
    SuffixMembers(rest, rank, max);
    AscendingUnique(From(s, rank, next), rest[max..], rank);
  }

  lemma SuffixMembers(s: seq<Entry>, rank: Rank, k: nat)
    requires Ascending(s, rank) && k < |s|
    ensures Ascending(s[k..], rank)
    ensures forall x :: x in s[k..] <==> x in s && rank(x) >= rank(s[k])
  {
    forall x
      ensures x in s[k..] <==> x in s && rank(x) >= rank(s[k])
    {
      if x in s && rank(x) >= rank(s[k]) {
        var i :| 0 <= i < |s| && s[i] == x;
        assert i >= k;
        assert s[k..][i - k] == x;
      }
      if x in s[k..] {
        var i :| 0 <= i < |s[k..]| && s[k..][i] == x;
        assert s[k + i] == x;
      }
    }
  }

  /** Every page from `start` on, each begun where the one before it pointed. */
  function Pages(s: seq<Entry>, rank: Rank, start: nat, max: nat): seq<seq<Entry>>
    requires Ascending(s, rank)
    requires max >= 1
    decreases |From(s, rank, start)|
  {
    var (page, next) := Page(From(s, rank, start), rank, max);
    if next.None? then [page] else
      NextPage(s, rank, start, max);
      [page] + Pages(s, rank, next.value, max)
  }

  function Concat(pages: seq<seq<Entry>>): seq<Entry> {
    if pages == [] then [] else pages[0] + Concat(pages[1..])
  }

  /** The pages hold every entry exactly once, in order, and none is longer than asked for. */
  lemma {:induction false} PagesCover(s: seq<Entry>, rank: Rank, start: nat, max: nat)
    requires Ascending(s, rank)
    requires max >= 1
    ensures Concat(Pages(s, rank, start, max)) == From(s, rank, start)
    ensures forall page | page in Pages(s, rank, start, max) :: |page| <= max
    decreases |From(s, rank, start)|
  {
    hide From, Ascending;
    var rest := From(s, rank, start);
    var (page, next) := Page(rest, rank, max);
    var pages := Pages(s, rank, start, max);
    if next.None? {
      assert pages[1..] == [];
    } else {
      NextPage(s, rank, start, max);
      PagesCover(s, rank, next.value, max);
      assert pages[1..] == Pages(s, rank, next.value, max);
      assert rest == rest[..max] + rest[max..];
    }
  }
}
