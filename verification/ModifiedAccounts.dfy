/**
 The accounts that differ between two points of a history, from the change records of two domains.
 A history lists the keys written in a range with the value each had before the range; a value is
 empty if the record did not exist. Storage keys are an address followed by a slot.
 */
module ModifiedAccounts {
  import opened ByteStrings

  type Key = seq<Byte>
  type Address = seq<Byte>
  type History = seq<(Key, seq<Byte>)>
  type Domain = Key -> seq<Byte>

  const ADDRESS_LENGTH: nat := 20

  /** The part of a key that says whose it is. */
  function AddressOf(key: Key): (a: Address)
    requires |key| >= ADDRESS_LENGTH
    ensures |a| == 20 && a <= key
  {
    key[..ADDRESS_LENGTH]
  }

  predicate AccountKeys(history: History) {
    forall i | 0 <= i < |history| :: |history[i].0| >= ADDRESS_LENGTH
  }

  // ---------- What the two passes find ----------

  /** An account record changed and exists at the end. */
  predicate Changed(history: History, at: Domain, a: Address) {
    exists i | 0 <= i < |history| ::
      |history[i].0| >= ADDRESS_LENGTH && AddressOf(history[i].0) == a &&
      history[i].1 != at(history[i].0) && at(history[i].0) != []
  }

  /** An account record changed and is gone at the end. */
  predicate Deleted(history: History, at: Domain, a: Address) {
    exists i | 0 <= i < |history| ::
      |history[i].0| >= ADDRESS_LENGTH && AddressOf(history[i].0) == a &&
      history[i].1 != at(history[i].0) && at(history[i].0) == []
  }

  predicate SlotChanged(history: History, at: Domain, a: Address) {
    exists i | 0 <= i < |history| ::
      |history[i].0| >= ADDRESS_LENGTH && AddressOf(history[i].0) == a && history[i].1 != at(history[i].0)
  }

  /** What the two passes answer for an address. */
  predicate Reported(accounts: History, storage: History, accountAt: Domain, storageAt: Domain, a: Address) {
    Changed(accounts, accountAt, a) || (SlotChanged(storage, storageAt, a) && !Deleted(accounts, accountAt, a))
  }

  predicate Distinct(addresses: seq<Address>) {
    forall i, j | 0 <= i < j < |addresses| :: addresses[i] != addresses[j]
  }

  /** The addresses of `k` history entries that pass 1 would report, and those it would remember as deleted. */
  lemma NextRecord(history: History, at: Domain, k: nat, a: Address)
    requires k < |history| && |history[k].0| >= ADDRESS_LENGTH
    ensures var own := AddressOf(history[k].0) == a && history[k].1 != at(history[k].0);
            && (Changed(history[..k + 1], at, a) <==> Changed(history[..k], at, a) || (own && at(history[k].0) != []))
            && (Deleted(history[..k + 1], at, a) <==> Deleted(history[..k], at, a) || (own && at(history[k].0) == []))
            && (SlotChanged(history[..k + 1], at, a) <==> SlotChanged(history[..k], at, a) || own)
  {
    var longer, shorter := history[..k + 1], history[..k];
    assert longer[k] == history[k];
    assert forall i | 0 <= i < k :: longer[i] == shorter[i];
  }

  lemma ShortKey(history: History, at: Domain, k: nat, a: Address)
    requires k < |history| && |history[k].0| < ADDRESS_LENGTH
    ensures SlotChanged(history[..k + 1], at, a) <==> SlotChanged(history[..k], at, a)
  {
    var longer, shorter := history[..k + 1], history[..k];
    assert forall i | 0 <= i < k :: longer[i] == shorter[i];
  }

  /** Each address once: changed records that still exist, and then changed slots of accounts that were not deleted. */
  method GetModifiedAccounts(accounts: History, storage: History, accountAt: Domain, storageAt: Domain)
      returns (result: seq<Address>)
    requires AccountKeys(accounts)
    ensures Distinct(result)
    ensures forall a :: a in result <==> Reported(accounts, storage, accountAt, storageAt, a)
  {
    hide Changed, Deleted, SlotChanged;
    var saw: set<Address>;
    var deleted: set<Address>;
    result, saw, deleted := AccountPass(accounts, accountAt);
    ghost var first := result;
    NoSlots(storage, storageAt);
    for k := 0 to |storage|
      invariant Distinct(result)
      invariant forall a :: a in result <==> a in saw
      invariant forall a :: a in saw <==>
                  Changed(accounts, accountAt, a) ||
                  (SlotChanged(storage[..k], storageAt, a) && !Deleted(accounts, accountAt, a))
    {
      var (key, before) := storage[k];
      forall a
        ensures |key| < ADDRESS_LENGTH ==>
            (SlotChanged(storage[..k + 1], storageAt, a) <==> SlotChanged(storage[..k], storageAt, a))
        ensures |key| >= ADDRESS_LENGTH ==>
                  (SlotChanged(storage[..k + 1], storageAt, a) <==>
                   SlotChanged(storage[..k], storageAt, a) || (AddressOf(key) == a && before != storageAt(key)))
      {
        if |key| < ADDRESS_LENGTH {
          ShortKey(storage, storageAt, k, a);
        } else {
          NextRecord(storage, storageAt, k, a);
        }
      }
      if |key| < ADDRESS_LENGTH {
        continue;
      }
      var address := AddressOf(key);
      if address in saw || address in deleted || before == storageAt(key) {
        continue;
      }
      saw := saw + {address};
      result := result + [address];
    }
    assert storage[..|storage|] == storage;
  }

  lemma NoSlots(storage: History, at: Domain)
    ensures forall a :: !SlotChanged(storage[..0], at, a)
  {
  }

  lemma NoRecords(accounts: History, at: Domain)
    ensures forall a :: !Changed(accounts[..0], at, a) && !Deleted(accounts[..0], at, a)
  {
  }

  /** Pass over the account records. */
  method AccountPass(accounts: History, at: Domain)
      returns (result: seq<Address>, saw: set<Address>, deleted: set<Address>)
    requires AccountKeys(accounts)
    ensures Distinct(result) && forall a :: a in result <==> a in saw
    ensures forall a :: a in saw <==> Changed(accounts, at, a)
    ensures forall a :: a in deleted <==> Deleted(accounts, at, a)
  {
    hide Changed, Deleted, SlotChanged;
    result, saw, deleted := [], {}, {};
    NoRecords(accounts, at);
    for k := 0 to |accounts|
      invariant Distinct(result)
      invariant forall a :: a in result <==> a in saw
      invariant forall a :: a in saw <==> Changed(accounts[..k], at, a)
      invariant forall a :: a in deleted <==> Deleted(accounts[..k], at, a)
    {
      var (key, before) := accounts[k];
      forall a
        ensures var own := AddressOf(key) == a && before != at(key);
                && (Changed(accounts[..k + 1], at, a) <==> Changed(accounts[..k], at, a) || (own && at(key) != []))
                && (Deleted(accounts[..k + 1], at, a) <==> Deleted(accounts[..k], at, a) || (own && at(key) == []))
      {
        NextRecord(accounts, at, k, a);
      }
      var after := at(key);
      if before == after {
        continue;
      }
      var address := AddressOf(key);
      if after == [] {
        deleted := deleted + {address};
        continue;
      }
      if address !in saw {
        saw := saw + {address};
        result := result + [address];
      }
    }
    assert accounts[..|accounts|] == accounts;
  }

  // ---------- What a caller means by modified ----------

  /** The record of every key that differs is listed with its value before the range. */
  ghost predicate Faithful(history: History, start: Domain, end: Domain) {
    && (forall i | 0 <= i < |history| :: history[i].1 == start(history[i].0))
    && forall key: Key | start(key) != end(key) :: Listed(history, key)
  }

  predicate Listed(history: History, key: Key) {
    exists i | 0 <= i < |history| :: history[i].0 == key
  }

  /** Account records are keyed by addresses. */
  predicate AddressKeys(history: History) {
    forall i | 0 <= i < |history| :: |history[i].0| == ADDRESS_LENGTH
  }

  /** An account that does not exist has no storage. */
  ghost predicate NoOrphans(accounts: Domain, storage: Domain) {
    forall key: Key, a: Address | |a| == 20 && a <= key && storage(key) != [] :: accounts(a) != []
  }

  /** The account exists at the end, and its record or one of its slots differs from the start. */
  ghost predicate Modified(accountStart: Domain, accountEnd: Domain, storageStart: Domain, storageEnd: Domain,
      a: Address) {
    && |a| == 20
    && accountEnd(a) != []
    && (|| accountStart(a) != accountEnd(a)
        || exists key: Key :: a <= key && storageStart(key) != storageEnd(key))
  }

  /**
   With faithful histories the answer for an address is right exactly if it is not the address of an
   account that is absent at both ends and had a slot changed all the same.
   */
  lemma ReportedIsModified(accounts: History, storage: History, accountStart: Domain, accountEnd: Domain,
                           storageStart: Domain, storageEnd: Domain, a: Address)
    requires AddressKeys(accounts)
    requires Faithful(accounts, accountStart, accountEnd) && Faithful(storage, storageStart, storageEnd)
    requires |a| == ADDRESS_LENGTH
    ensures (Reported(accounts, storage, accountEnd, storageEnd, a) <==>
             Modified(accountStart, accountEnd, storageStart, storageEnd, a)) <==>
            !(accountStart(a) == [] && accountEnd(a) == [] && SlotChanged(storage, storageEnd, a))
  {
    RecordsFound(accounts, accountStart, accountEnd, a);
    SlotsFound(storage, storageStart, storageEnd, a);
  }

  /** Without orphaned storage the two passes report exactly the modified accounts. */
  lemma PassesFindModified(accounts: History, storage: History, accountStart: Domain, accountEnd: Domain,
                           storageStart: Domain, storageEnd: Domain, a: Address)
    requires AddressKeys(accounts)
    requires Faithful(accounts, accountStart, accountEnd) && Faithful(storage, storageStart, storageEnd)
    requires NoOrphans(accountStart, storageStart) && NoOrphans(accountEnd, storageEnd)
    ensures Reported(accounts, storage, accountEnd, storageEnd, a) <==>
            Modified(accountStart, accountEnd, storageStart, storageEnd, a)
  {
    RecordsFound(accounts, accountStart, accountEnd, a);
    SlotsFound(storage, storageStart, storageEnd, a);
    if |a| == ADDRESS_LENGTH && accountEnd(a) == [] && accountStart(a) == [] {
      forall key: Key | a <= key
        ensures storageStart(key) == storageEnd(key)
      {
        assert storageStart(key) == [] && storageEnd(key) == [];
      }
    }
  }

  lemma RecordsFound(accounts: History, start: Domain, end: Domain, a: Address)
    requires AddressKeys(accounts) && Faithful(accounts, start, end)
    ensures Changed(accounts, end, a) <==> |a| == ADDRESS_LENGTH && start(a) != end(a) && end(a) != []
    ensures Deleted(accounts, end, a) <==> |a| == ADDRESS_LENGTH && start(a) != end(a) && end(a) == []
  {
    forall i | 0 <= i < |accounts|
      ensures AddressOf(accounts[i].0) == accounts[i].0
    {
      assert |accounts[i].0| == ADDRESS_LENGTH;
    }
    if start(a) != end(a) {
      assert Listed(accounts, a);
      var i :| 0 <= i < |accounts| && accounts[i].0 == a;
      assert |accounts[i].0| >= ADDRESS_LENGTH && AddressOf(accounts[i].0) == a;
    }
  }

  lemma SlotsFound(storage: History, start: Domain, end: Domain, a: Address)
    requires Faithful(storage, start, end)
    ensures SlotChanged(storage, end, a) <==>
            |a| == 20 && exists key: Key :: a <= key && start(key) != end(key)
  {
    if key: Key :| |a| == 20 && a <= key && start(key) != end(key) {
      assert Listed(storage, key);
      var i :| 0 <= i < |storage| && storage[i].0 == key;
      assert |storage[i].0| >= ADDRESS_LENGTH && AddressOf(storage[i].0) == a;
    }
    if SlotChanged(storage, end, a) {
      var i :| 0 <= i < |storage| && |storage[i].0| >= ADDRESS_LENGTH && AddressOf(storage[i].0) == a &&
               storage[i].1 != end(storage[i].0);
      assert a <= storage[i].0 && start(storage[i].0) != end(storage[i].0);
    }
  }

  /** Storage of an account that never existed shows why orphans must be ruled out: it would be reported. */
  lemma OrphanReported(key: Key)
    requires |key| >= ADDRESS_LENGTH
    ensures var absent := (k: Key) => [];
            var written := (k: Key) => if k == key then [1] else [];
            && Faithful([], absent, absent)
            && Faithful([(key, [])], absent, written)
            && Reported([], [(key, [])], absent, written, AddressOf(key))
            && !Modified(absent, absent, absent, written, AddressOf(key))
  {
    var written := (k: Key) => if k == key then [1] else [];
    var history: History := [(key, [])];
    assert history[0].0 == key;
    assert Listed(history, key);
  }
}
