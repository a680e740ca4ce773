/**
 The slots of a contract's storage and the entries they give, and what a result holds in terms of the
 slots alone: which slots are on a page is settled by how many ranks of live slots are below theirs.
 */
module StorageSlots {
  import opened Wrappers
  import opened ByteStrings
  import opened MaxHeap
  import opened SortedEntries

  /** A record of the storage domain; an empty value is a deleted slot. */
  datatype Slot = Slot(key: nat, value: seq<Byte>)

  type Hash = nat -> nat

  datatype StorageRangeResult = StorageRangeResult(storage: map<nat, (nat, nat)>, nextKey: Option<nat>)

  function SeckeyOf(): Rank {
    (e: Entry) => e.seckey
  }

  function KeyOf(): Rank {
    (e: Entry) => e.key
  }

  /** The entry of a slot: its hashed key, its key, and the number its last 32 bytes stand for. */
  predicate IsEntry(e: Entry, slot: Slot, hash: Hash) {
    && e.seckey == hash(slot.key)
    && e.key == slot.key
    && e.value == ToNat(slot.value[if |slot.value| < 32 then 0 else |slot.value| - 32..])
  }

  /** A value of more than 32 bytes keeps the last 32. */
  function EntryOf(slot: Slot, hash: Hash): (e: Entry)
    ensures IsEntry(e, slot, hash)
  {
    Entry(hash(slot.key), slot.key, ToNat(if |slot.value| > 32 then slot.value[|slot.value| - 32..] else slot.value))
  }

  /** The live entries of the first slots. */
  function Live(slots: seq<Slot>, hash: Hash): seq<Entry> {
    if slots == [] then [] else
      Live(slots[..|slots| - 1], hash) +
      if slots[|slots| - 1].value == [] then [] else [EntryOf(slots[|slots| - 1], hash)]
  }

  predicate InRange(start: Option<nat>, rank: nat) {
    start.None? || rank >= start.value
  }

  function Eligible(slots: seq<Slot>, hash: Hash, start: Option<nat>): seq<Entry> {
    if slots == [] then [] else
      var last := slots[|slots| - 1];
      Eligible(slots[..|slots| - 1], hash, start) +
      if last.value == [] || !InRange(start, hash(last.key)) then [] else [EntryOf(last, hash)]
  }

  /** The result map, keyed by the hashed key. */
  function Stored(entries: seq<Entry>): map<nat, (nat, nat)> {
    if entries == [] then map[] else
      Stored(entries[..|entries| - 1])[entries[|entries| - 1].seckey :=
        (entries[|entries| - 1].key, entries[|entries| - 1].value)]
  }

  function ResultOf(page: (seq<Entry>, Option<nat>)): StorageRangeResult {
    StorageRangeResult(Stored(page.0), page.1)
  }

  predicate KeysAscend(slots: seq<Slot>) {
    forall i, j | 0 <= i < j < |slots| :: slots[i].key < slots[j].key
  }

  predicate DistinctHashes(slots: seq<Slot>, hash: Hash) {
    forall i, j | 0 <= i < j < |slots| :: hash(slots[i].key) != hash(slots[j].key)
  }

  // ---------- What a result holds ----------

  function RankOf(hashed: bool, hash: Hash, slot: Slot): nat {
    if hashed then hash(slot.key) else slot.key
  }

  /** A live slot from the start on. */
  predicate Listed(slots: seq<Slot>, hashed: bool, hash: Hash, from: nat, i: nat)
    requires i < |slots|
  {
    slots[i].value != [] && RankOf(hashed, hash, slots[i]) >= from
  }

  /** The ranks below `k` of the live slots from the start on. */
  function Below(slots: seq<Slot>, hashed: bool, hash: Hash, from: nat, k: nat): set<nat> {
    set i | 0 <= i < |slots| && Listed(slots, hashed, hash, from, i) && RankOf(hashed, hash, slots[i]) < k ::
      RankOf(hashed, hash, slots[i])
  }

  /** At hash `h` there is what slot `i` says. */
  predicate HoldsSlot(storage: map<nat, (nat, nat)>, h: nat, slot: Slot, hash: Hash) {
    h in storage && IsEntry(Entry(h, storage[h].0, storage[h].1), slot, hash)
  }

  /** A slot is on the page if fewer than `max` ranks are below its own, and next if there are `max`. */
  predicate SlotShown(result: StorageRangeResult, slots: seq<Slot>, hashed: bool, hash: Hash, from: nat, max: nat,
                      i: nat)
    requires i < |slots|
  {
    var rank := RankOf(hashed, hash, slots[i]);
    var place := |Below(slots, hashed, hash, from, rank)|;
    && (place < max ==> HoldsSlot(result.storage, hash(slots[i].key), slots[i], hash))
    && (result.nextKey == Some(rank) <==> place == max)
  }

  /** The first `max` live slots from the start on, in the order of ranks, and the rank of the one after them. */
  predicate ShowsSlots(result: StorageRangeResult, slots: seq<Slot>, hashed: bool, hash: Hash, from: nat, max: nat) {
    && (forall i | 0 <= i < |slots| && Listed(slots, hashed, hash, from, i) ::
          SlotShown(result, slots, hashed, hash, from, max, i))
    && (forall h | h in result.storage ::
          exists i | 0 <= i < |slots| ::
            && Listed(slots, hashed, hash, from, i) && hash(slots[i].key) == h
            && |Below(slots, hashed, hash, from, RankOf(hashed, hash, slots[i]))| < max)
    && (result.nextKey.Some? ==>
          exists i | 0 <= i < |slots| ::
            Listed(slots, hashed, hash, from, i) && result.nextKey == Some(RankOf(hashed, hash, slots[i])))
  }

  lemma {:induction false} StoredKeys(entries: seq<Entry>, seckey: nat)
    ensures seckey in Stored(entries) <==> exists i | 0 <= i < |entries| :: entries[i].seckey == seckey
  {
    if entries != [] {
      var front := entries[..|entries| - 1];
      StoredKeys(front, seckey);
      if i :| 0 <= i < |front| && front[i].seckey == seckey {
        assert entries[i].seckey == seckey;
      }
      if i :| 0 <= i < |entries| && entries[i].seckey == seckey && i != |entries| - 1 {
        assert front[i].seckey == seckey;
      }
    }
  }

  lemma {:induction false} EligibleMembers(slots: seq<Slot>, hash: Hash, start: Option<nat>, e: Entry)
    ensures e in Eligible(slots, hash, start) <==> e in Live(slots, hash) && InRange(start, e.seckey)
    ensures multiset(Eligible(slots, hash, start)) <= multiset(Live(slots, hash))
  {
    if slots != [] {
      EligibleMembers(slots[..|slots| - 1], hash, start, e);
    }
  }

  // ---------- The entries of a page ----------

  lemma {:induction false} LiveMembers(slots: seq<Slot>, hash: Hash, e: Entry)
    ensures e in Live(slots, hash) <==>
            exists i | 0 <= i < |slots| :: slots[i].value != [] && e == EntryOf(slots[i], hash)
  {
    hide EntryOf;
    if slots != [] {
      var front := slots[..|slots| - 1];
      LiveMembers(front, hash, e);
      if i :| 0 <= i < |slots| && slots[i].value != [] && e == EntryOf(slots[i], hash) && i < |front| {
        assert front[i] == slots[i];
      }
      if i :| 0 <= i < |front| && front[i].value != [] && e == EntryOf(front[i], hash) {
        assert slots[i] == front[i];
      }
    }
  }

  lemma {:induction false} LiveDistinct(slots: seq<Slot>, hash: Hash)
    requires DistinctHashes(slots, hash)
    ensures DistinctRanks(Live(slots, hash), SeckeyOf())
  {
    hide EntryOf;
    if slots != [] {
      var front, last := slots[..|slots| - 1], slots[|slots| - 1];
      var live := Live(front, hash);
      LiveDistinct(front, hash);
      forall j | 0 <= j < |live|
        ensures live[j].seckey != hash(last.key)
      {
        LiveMembers(front, hash, live[j]);
      }
    }
  }

  /** Entries in the order of their ranks that are those of the listed slots. */
  ghost predicate Lists(s: seq<Entry>, slots: seq<Slot>, hashed: bool, hash: Hash, from: nat) {
    var rank := if hashed then SeckeyOf() else KeyOf();
    && Ascending(s, rank)
    && DistinctRanks(s, SeckeyOf())
    && forall e :: e in s <==>
         exists i | 0 <= i < |slots| :: Listed(slots, hashed, hash, from, i) && e == EntryOf(slots[i], hash)
  }

  function Ranks(s: seq<Entry>, rank: Rank, m: nat): set<nat>
    requires m <= |s|
  {
    set k | 0 <= k < m :: rank(s[k])
  }

  lemma {:induction false} RanksCount(s: seq<Entry>, rank: Rank, m: nat)
    requires Ascending(s, rank) && m <= |s|
    ensures |Ranks(s, rank, m)| == m
  {
    if m > 0 {
      RanksCount(s, rank, m - 1);
      assert Ranks(s, rank, m) == Ranks(s, rank, m - 1) + {rank(s[m - 1])};
    }
  }

  /** The place of an entry is how many ranks are below its own. */
  lemma PlaceIsCount(s: seq<Entry>, slots: seq<Slot>, hashed: bool, hash: Hash, from: nat, m: nat)
    requires Lists(s, slots, hashed, hash, from) && m < |s|
    ensures var rank := if hashed then SeckeyOf() else KeyOf();
            |Below(slots, hashed, hash, from, rank(s[m]))| == m
  {
    hide EntryOf, DistinctRanks;
    var rank := if hashed then SeckeyOf() else KeyOf();
    var ranks := Ranks(s, rank, m);
    var below := Below(slots, hashed, hash, from, rank(s[m]));
    RanksCount(s, rank, m);
    forall r | r in below
      ensures r in ranks
    {
      var i :| 0 <= i < |slots| && Listed(slots, hashed, hash, from, i) && RankOf(hashed, hash, slots[i]) == r;
      var e := EntryOf(slots[i], hash);
      assert e in s;
      var k :| 0 <= k < |s| && s[k] == e;
      assert rank(s[k]) == r < rank(s[m]);
      assert k < m;
    }
    forall r | r in ranks
      ensures r in below
    {
      var k :| 0 <= k < m && rank(s[k]) == r;
      assert s[k] in s;
    }
    assert below == ranks;
  }

  lemma {:induction false} StoredAt(entries: seq<Entry>, m: nat)
    requires DistinctRanks(entries, SeckeyOf()) && m < |entries|
    ensures var e := entries[m];
            e.seckey in Stored(entries) && Stored(entries)[e.seckey] == (e.key, e.value)
  {
    if m < |entries| - 1 {
      var front, last := entries[..|entries| - 1], entries[|entries| - 1];
      assert forall i, j | 0 <= i < j < |front| :: SeckeyOf()(entries[i]) != SeckeyOf()(entries[j]);
      StoredAt(front, m);
      assert SeckeyOf()(entries[m]) != SeckeyOf()(entries[|entries| - 1]);
    }
  }

  lemma EntryHasSlot(s: seq<Entry>, slots: seq<Slot>, hashed: bool, hash: Hash, from: nat, m: nat) returns (i: nat)
    requires Lists(s, slots, hashed, hash, from) && m < |s|
    ensures i < |slots| && Listed(slots, hashed, hash, from, i) && s[m] == EntryOf(slots[i], hash)
  {
    assert s[m] in s;
    i :| 0 <= i < |slots| && Listed(slots, hashed, hash, from, i) && s[m] == EntryOf(slots[i], hash);
  }

  lemma SlotPlaced(s: seq<Entry>, slots: seq<Slot>, hashed: bool, hash: Hash, from: nat, max: nat, i: nat)
    requires Lists(s, slots, hashed, hash, from)
    requires i < |slots| && Listed(slots, hashed, hash, from, i)
    ensures SlotShown(ResultOf(Page(s, if hashed then SeckeyOf() else KeyOf(), max)), slots, hashed, hash, from, max, i)
  {
    hide Below, Stored;
    var e := EntryOf(slots[i], hash);
    assert e in s;
    var m :| 0 <= m < |s| && s[m] == e;
    PlaceIsCount(s, slots, hashed, hash, from, m);
    var page := s[..if |s| > max then max else |s|];
    assert DistinctRanks(page, SeckeyOf()) by {
      assert forall j, k | 0 <= j < k < |page| :: SeckeyOf()(s[j]) != SeckeyOf()(s[k]);
    }
    var rank := if hashed then SeckeyOf() else KeyOf();
    var result := ResultOf(Page(s, rank, max));
    assert rank(e) == RankOf(hashed, hash, slots[i]);
    assert s[..|s|] == s;
    assert result.storage == Stored(page);
    assert |s| > max ==> (rank(s[max]) == rank(s[m]) <==> m == max);
    assert result.nextKey == Some(rank(e)) <==> m == max;
    if m < max {
      StoredAt(page, m);
      assert Entry(e.seckey, Stored(page)[e.seckey].0, Stored(page)[e.seckey].1) == e;
    }
  }

  /** The result of a page says of the slots what it should. */
  lemma PageShowsSlots(s: seq<Entry>, slots: seq<Slot>, hashed: bool, hash: Hash, from: nat, max: nat)
    requires Lists(s, slots, hashed, hash, from)
    ensures ShowsSlots(ResultOf(Page(s, if hashed then SeckeyOf() else KeyOf(), max)), slots, hashed, hash, from, max)
  {
    hide Below, Stored, EntryOf, Lists;
    var rank := if hashed then SeckeyOf() else KeyOf();
    var (page, next) := Page(s, rank, max);
    forall i | 0 <= i < |slots| && Listed(slots, hashed, hash, from, i)
      ensures SlotShown(ResultOf((page, next)), slots, hashed, hash, from, max, i)
    {
      SlotPlaced(s, slots, hashed, hash, from, max, i);
    }
    forall h | h in Stored(page)
      ensures exists i | 0 <= i < |slots| ::
                && Listed(slots, hashed, hash, from, i) && hash(slots[i].key) == h
                && |Below(slots, hashed, hash, from, RankOf(hashed, hash, slots[i]))| < max
    {
      StoredKeys(page, h);
      var m :| 0 <= m < |page| && page[m].seckey == h;
      PlaceIsCount(s, slots, hashed, hash, from, m);
      var i := EntryHasSlot(s, slots, hashed, hash, from, m);
    }
    if next.Some? {
      var i := EntryHasSlot(s, slots, hashed, hash, from, max);
    }
  }
}
