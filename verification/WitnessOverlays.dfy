/**
 Two overlays over the state of a block: one records what an execution touches, the other runs the
 same block on a witness trie. Both take the same writes, and both are read while they are written.
 */
module WitnessOverlays {
  import opened Wrappers

  type Address = int
  type Slot = int
  type Word = int

  const EMPTY_ROOT: nat := 0

  datatype Account = Account(nonce: nat, balance: nat, codeHash: nat, root: nat)

  datatype Write =
    | UpdateAccountData(address: Address, account: Account)
    | UpdateAccountCode(address: Address, codeHash: nat)
    | WriteAccountStorage(address: Address, key: Slot, value: Word)
    | CreateContract(address: Address)
    | DeleteAccount(address: Address)

  /** The state that a recording is laid over. */
  datatype Reader = Reader(
    account: Address -> Option<Account>,
    storage: (Address, Slot) -> (Word, bool),
    hasStorage: Address -> bool)

  /** A witness trie: the accounts and the slots found in it. */
  datatype Trie = Trie(account: Address -> Option<Account>, slot: (Address, Slot) -> Option<Word>)

  function Found(slot: Option<Word>): (Word, bool) {
    match slot
    case Some(v) => (v, true)
    case None => (0, false)
  }

  predicate HasRoot(account: Option<Account>) {
    account.Some? && account.value.root != EMPTY_ROOT
  }

  ghost predicate SameBase(inner: Reader, t: Trie) {
    && (forall a :: inner.account(a) == t.account(a))
    && (forall a, k :: inner.storage(a, k) == Found(t.slot(a, k)))
    && (forall a :: inner.hasStorage(a) == HasRoot(t.account(a)))
  }

  // ---------- What the readers should answer: the last write wins ----------

  /** The account is never deleted. */
  predicate Undeleted(log: seq<Write>, a: Address) {
    forall i | 0 <= i < |log| :: !(log[i].DeleteAccount? && log[i].address == a)
  }

  predicate Updated(log: seq<Write>, a: Address) {
    exists i | 0 <= i < |log| :: log[i].UpdateAccountData? && log[i].address == a
  }

  /** New code only changes an account that was updated before. */
  function AccountAfter(base: Option<Account>, log: seq<Write>, a: Address): (account: Option<Account>)
    ensures Updated(log, a) ==> account.Some?
    ensures !Updated(log, a) ==> account == base
  {
    if log == [] then base
    else
      var init, w := log[..|log| - 1], log[|log| - 1];
      assert Updated(log, a) <==> Updated(init, a) || (w.UpdateAccountData? && w.address == a);
      var before := AccountAfter(base, init, a);
      if w.address != a then before
      else if w.UpdateAccountData? then Some(w.account)
      else if w.UpdateAccountCode? && Updated(init, a) then Some(before.value.(codeHash := w.codeHash))
      else before
  }

  function LastValue(log: seq<Write>, a: Address, k: Slot): Option<Word> {
    if log == [] then None
    else
      var w := log[|log| - 1];
      if w.WriteAccountStorage? && w.address == a && w.key == k then Some(w.value)
      else LastValue(log[..|log| - 1], a, k)
  }

  function SlotAfter(base: (Word, bool), log: seq<Write>, a: Address, k: Slot): (Word, bool) {
    match LastValue(log, a, k)
    case Some(v) => (v, v != 0)
    case None => base
  }

  ghost predicate HasStorageAfter(base: bool, log: seq<Write>, a: Address) {
    base || exists k :: LastValue(log, a, k).Some? && LastValue(log, a, k).value != 0
  }

  // ---------- The recording overlay ----------

  type Slots = map<Address, map<Slot, Word>>

  datatype Recorded = Recorded(
    accountOverlay: map<Address, Account>,
    storageOverlay: Slots,
    modifiedStorage: map<Address, set<Slot>>,
    deletedAccounts: set<Address>)

  const NOTHING_RECORDED := Recorded(map[], map[], map[], {})

  function SlotsOf(slots: Slots, a: Address): map<Slot, Word> {
    if a in slots then slots[a] else map[]
  }

  function KeysOf(keys: map<Address, set<Slot>>, a: Address): set<Slot> {
    if a in keys then keys[a] else {}
  }

  predicate AnyNonZero(slots: map<Slot, Word>) {
    exists k | k in slots :: slots[k] != 0
  }

  function Record(s: Recorded, w: Write): Recorded {
    var a := w.address;
    match w
    case UpdateAccountData(_, account) =>
      s.(accountOverlay := s.accountOverlay[a := account], deletedAccounts := s.deletedAccounts - {a})
    case UpdateAccountCode(_, codeHash) =>
      if a !in s.accountOverlay then s
      else s.(accountOverlay := s.accountOverlay[a := s.accountOverlay[a].(codeHash := codeHash)])
    case WriteAccountStorage(_, key, value) =>
      s.(modifiedStorage := s.modifiedStorage[a := KeysOf(s.modifiedStorage, a) + {key}],
         storageOverlay := s.storageOverlay[a := SlotsOf(s.storageOverlay, a)[key := value]])
    case CreateContract(_) =>
      s.(deletedAccounts := s.deletedAccounts - {a})
    case DeleteAccount(_) =>
      s.(deletedAccounts := s.deletedAccounts + {a},
         accountOverlay := s.accountOverlay - {a},
         storageOverlay := s.storageOverlay - {a})
  }

  function RecordedAccount(s: Recorded, inner: Reader, a: Address): Option<Account> {
    if a in s.deletedAccounts then None
    else if a in s.accountOverlay then Some(s.accountOverlay[a])
    else inner.account(a)
  }

  /** A slot that was written but is no longer in the overlay reads as zero. */
  function RecordedSlot(s: Recorded, inner: Reader, a: Address, k: Slot): (Word, bool) {
    if a in s.deletedAccounts then (0, false)
    else if k in KeysOf(s.modifiedStorage, a) then
      var slots := SlotsOf(s.storageOverlay, a);
      var v := if k in slots then slots[k] else 0;
      (v, v != 0)
    else inner.storage(a, k)
  }

  predicate RecordedHasStorage(s: Recorded, inner: Reader, a: Address) {
    AnyNonZero(SlotsOf(s.storageOverlay, a)) || (a !in s.deletedAccounts && inner.hasStorage(a))
  }

  ghost predicate RecordedSame(s: Recorded, r: Recorded, inner: Reader, a: Address) {
    && RecordedAccount(s, inner, a) == RecordedAccount(r, inner, a)
    && (forall k :: RecordedSlot(s, inner, a, k) == RecordedSlot(r, inner, a, k))
    && RecordedHasStorage(s, inner, a) == RecordedHasStorage(r, inner, a)
  }

  /** A write changes no answer about another account. */
  lemma RecordKeepsOthers(s: Recorded, w: Write, inner: Reader)
    ensures forall b | b != w.address :: RecordedSame(s, Record(s, w), inner, b)
  {
    hide AnyNonZero;
  }

  method Any<T>(items: set<T>) returns (x: T)
    requires items != {}
    ensures x in items
  {
    x :| x in items;
  }

  /** Iterating over a map until a slot is not zero. */
  method FindNonZero(slots: map<Slot, Word>) returns (found: bool)
    ensures found <==> AnyNonZero(slots)
  {
    var keys := slots.Keys;
    while keys != {}
      invariant keys <= slots.Keys
      invariant forall k | k in slots && k !in keys :: slots[k] == 0
      decreases |keys|
    {
      var k := Any(keys);
      keys := keys - {k};
      if slots[k] != 0 {
        return true;
      }
    }
    return false;
  }

  class RecordingState {
    const inner: Reader
    var accountOverlay: map<Address, Account>
    var storageOverlay: Slots
    var modifiedStorage: map<Address, set<Slot>>
    var deletedAccounts: set<Address>

    function State(): Recorded
      reads this
    {
      Recorded(accountOverlay, storageOverlay, modifiedStorage, deletedAccounts)
    }

    constructor (inner: Reader)
      ensures this.inner == inner && State() == NOTHING_RECORDED
    {
      this.inner := inner;
      accountOverlay, storageOverlay, modifiedStorage, deletedAccounts := map[], map[], map[], {};
    }

    method ReadAccountData(a: Address) returns (account: Option<Account>)
      ensures account == RecordedAccount(State(), inner, a)
    {
      if a in deletedAccounts {
        return None;
      }
      if a in accountOverlay {
        return Some(accountOverlay[a]);
      }
      return inner.account(a);
    }

    method ReadAccountStorage(a: Address, key: Slot) returns (value: Word, ok: bool)
      ensures (value, ok) == RecordedSlot(State(), inner, a, key)
    {
      if a in deletedAccounts {
        return 0, false;
      }
      if a in modifiedStorage && key in modifiedStorage[a] {
        value := if a in storageOverlay && key in storageOverlay[a] then storageOverlay[a][key] else 0;
        return value, value != 0;
      }
      var (v, found) := inner.storage(a, key);
      return v, found;
    }

    method HasStorage(a: Address) returns (has: bool)
      ensures has <==> RecordedHasStorage(State(), inner, a)
    {
      if a in storageOverlay {
        var found := FindNonZero(storageOverlay[a]);
        if found {
          return true;
        }
      }
      if a in deletedAccounts {
        return false;
      }
      return inner.hasStorage(a);
    }

    method UpdateAccountData(a: Address, account: Account)
      modifies this
      ensures State() == Record(old(State()), Write.UpdateAccountData(a, account))
      ensures RecordedAccount(State(), inner, a) == Some(account)
      ensures forall b | b != a :: RecordedSame(old(State()), State(), inner, b)
    {
      RecordKeepsOthers(State(), Write.UpdateAccountData(a, account), inner);
      hide RecordedSame;
      accountOverlay := accountOverlay[a := account];
      deletedAccounts := deletedAccounts - {a};
    }

    method UpdateAccountCode(a: Address, codeHash: nat)
      modifies this
      ensures State() == Record(old(State()), Write.UpdateAccountCode(a, codeHash))
      ensures RecordedAccount(State(), inner, a) ==
              if a in old(accountOverlay) && a !in old(deletedAccounts)
              then Some(old(accountOverlay)[a].(codeHash := codeHash)) else RecordedAccount(old(State()), inner, a)
      ensures forall b | b != a :: RecordedSame(old(State()), State(), inner, b)
    {
      RecordKeepsOthers(State(), Write.UpdateAccountCode(a, codeHash), inner);
      hide RecordedSame;
      if a in accountOverlay {
        accountOverlay := accountOverlay[a := accountOverlay[a].(codeHash := codeHash)];
      }
    }

    method WriteAccountStorage(a: Address, key: Slot, value: Word)
      modifies this
      ensures State() == Record(old(State()), Write.WriteAccountStorage(a, key, value))
      ensures a !in deletedAccounts ==> RecordedSlot(State(), inner, a, key) == (value, value != 0)
      ensures forall k | k != key :: RecordedSlot(State(), inner, a, k) == RecordedSlot(old(State()), inner, a, k)
      ensures RecordedAccount(State(), inner, a) == RecordedAccount(old(State()), inner, a)
      ensures forall b | b != a :: RecordedSame(old(State()), State(), inner, b)
    {
      RecordKeepsOthers(State(), Write.WriteAccountStorage(a, key, value), inner);
      hide RecordedSame;
      var modified := KeysOf(modifiedStorage, a);
      modifiedStorage := modifiedStorage[a := modified + {key}];
      var slots := SlotsOf(storageOverlay, a);
      storageOverlay := storageOverlay[a := slots[key := value]];
    }

    method CreateContract(a: Address)
      modifies this
      ensures State() == Record(old(State()), Write.CreateContract(a))
      ensures RecordedAccount(State(), inner, a) ==
              if a in accountOverlay then Some(accountOverlay[a]) else inner.account(a)
      ensures forall b | b != a :: RecordedSame(old(State()), State(), inner, b)
    {
      RecordKeepsOthers(State(), Write.CreateContract(a), inner);
      hide RecordedSame;
      deletedAccounts := deletedAccounts - {a};
    }

    method DeleteAccount(a: Address)
      modifies this
      ensures State() == Record(old(State()), Write.DeleteAccount(a))
      ensures RecordedAccount(State(), inner, a) == None && !RecordedHasStorage(State(), inner, a)
      ensures forall k :: RecordedSlot(State(), inner, a, k) == (0, false)
      ensures forall b | b != a :: RecordedSame(old(State()), State(), inner, b)
    {
      RecordKeepsOthers(State(), Write.DeleteAccount(a), inner);
      hide RecordedSame;
      deletedAccounts := deletedAccounts + {a};
      accountOverlay := accountOverlay - {a};
      storageOverlay := storageOverlay - {a};
    }
  }

  // ---------- The overlay on a witness ----------

  /** An account update without a value stands for a deleted account. */
  datatype Stateless = Stateless(
    accountUpdates: map<Address, Option<Account>>,
    storageWrites: Slots,
    storageDeletes: map<Address, set<Slot>>,
    deleted: set<Address>,
    created: set<Address>)

  const NOTHING_WRITTEN := Stateless(map[], map[], map[], {}, {})

  function Apply(s: Stateless, t: Trie, w: Write): Stateless {
    var a := w.address;
    match w
    case UpdateAccountData(_, account) =>
      s.(accountUpdates := s.accountUpdates[a := Some(account)])
    case UpdateAccountCode(_, codeHash) =>
      if a in s.accountUpdates && s.accountUpdates[a].Some? then
        s.(accountUpdates := s.accountUpdates[a := Some(s.accountUpdates[a].value.(codeHash := codeHash))])
      else s
    case WriteAccountStorage(_, key, value) =>
      if value == 0 then
        s.(storageDeletes := s.storageDeletes[a := KeysOf(s.storageDeletes, a) + {key}],
           storageWrites :=
             if a in s.storageWrites then s.storageWrites[a := s.storageWrites[a] - {key}] else s.storageWrites)
      else
        s.(storageWrites := s.storageWrites[a := SlotsOf(s.storageWrites, a)[key := value]],
           storageDeletes :=
             if a in s.storageDeletes then s.storageDeletes[a := s.storageDeletes[a] - {key}] else s.storageDeletes)
    case CreateContract(_) =>
      s.(created := s.created + {a}, deleted := s.deleted - {a})
    case DeleteAccount(_) =>
      if t.account(a) == None && a !in s.accountUpdates then s
      else s.(accountUpdates := s.accountUpdates[a := None], deleted := s.deleted + {a})
  }

  function StatelessAccount(s: Stateless, t: Trie, a: Address): Option<Account> {
    if a in s.accountUpdates then s.accountUpdates[a]
    else if a in s.deleted then None
    else t.account(a)
  }

  function StatelessSlot(s: Stateless, t: Trie, a: Address, k: Slot): (Word, bool) {
    if k in SlotsOf(s.storageWrites, a) then (SlotsOf(s.storageWrites, a)[k], true)
    else if k in KeysOf(s.storageDeletes, a) then (0, false)
    else Found(t.slot(a, k))
  }

  predicate StatelessHasStorage(s: Stateless, t: Trie, a: Address) {
    a !in s.deleted && (AnyNonZero(SlotsOf(s.storageWrites, a)) || HasRoot(t.account(a)))
  }

  /** Writes are never zero, and no slot is both written and deleted. */
  ghost predicate Clean(s: Stateless) {
    && (forall a, k | a in s.storageWrites && k in s.storageWrites[a] :: s.storageWrites[a][k] != 0)
    && (forall a | a in s.storageWrites :: s.storageWrites[a].Keys !! KeysOf(s.storageDeletes, a))
  }

  ghost predicate StatelessSame(s: Stateless, r: Stateless, t: Trie, a: Address) {
    && StatelessAccount(s, t, a) == StatelessAccount(r, t, a)
    && (forall k :: StatelessSlot(s, t, a, k) == StatelessSlot(r, t, a, k))
    && StatelessHasStorage(s, t, a) == StatelessHasStorage(r, t, a)
  }

  lemma ApplyKeepsOthers(s: Stateless, w: Write, t: Trie)
    ensures forall b | b != w.address :: StatelessSame(s, Apply(s, t, w), t, b)
  {
    hide AnyNonZero, HasRoot, Found;
  }

  lemma EmptyIsClean()
    ensures Clean(NOTHING_WRITTEN)
  {
  }

  lemma StaysClean(s: Stateless, t: Trie, w: Write)
    requires Clean(s)
    ensures Clean(Apply(s, t, w))
  {
    if w.WriteAccountStorage? {
      var a, after := w.address, Apply(s, t, w);
      assert forall b | b != a :: SlotsOf(after.storageWrites, b) == SlotsOf(s.storageWrites, b);
      assert forall b | b != a :: KeysOf(after.storageDeletes, b) == KeysOf(s.storageDeletes, b);
    }
  }

  class WitnessStateless {
    const t: Trie
    var accountUpdates: map<Address, Option<Account>>
    var storageWrites: Slots
    var storageDeletes: map<Address, set<Slot>>
    var deleted: set<Address>
    var created: set<Address>

    function State(): Stateless
      reads this
    {
      Stateless(accountUpdates, storageWrites, storageDeletes, deleted, created)
    }

    ghost predicate Valid()
      reads this
    {
      Clean(State())
    }

    constructor (t: Trie)
      ensures this.t == t && State() == NOTHING_WRITTEN && Valid()
    {
      this.t := t;
      accountUpdates, storageWrites, storageDeletes, deleted, created := map[], map[], map[], {}, {};
    }

    method ReadAccountData(a: Address) returns (account: Option<Account>)
      ensures account == StatelessAccount(State(), t, a)
    {
      if a in accountUpdates {
        return accountUpdates[a];
      }
      if a in deleted {
        return None;
      }
      return t.account(a);
    }

    method ReadAccountStorage(a: Address, key: Slot) returns (value: Word, ok: bool)
      ensures (value, ok) == StatelessSlot(State(), t, a, key)
    {
      if a in storageWrites && key in storageWrites[a] {
        return storageWrites[a][key], true;
      }
      if a in storageDeletes && key in storageDeletes[a] {
        return 0, false;
      }
      match t.slot(a, key)
      case Some(v) => return v, true;
      case None => return 0, false;
    }

    method HasStorage(a: Address) returns (has: bool)
      ensures has <==> StatelessHasStorage(State(), t, a)
    {
      if a in deleted {
        return false;
      }
      if a in storageWrites {
        var found := FindNonZero(storageWrites[a]);
        if found {
          return true;
        }
      }
      match t.account(a)
      case None => return false;
      case Some(account) => return account.root != EMPTY_ROOT;
    }

    method UpdateAccountData(a: Address, account: Account)
      requires Valid()
      modifies this
      ensures Valid()
      ensures State() == Apply(old(State()), t, Write.UpdateAccountData(a, account))
      ensures StatelessAccount(State(), t, a) == Some(account)
      ensures forall b | b != a :: StatelessSame(old(State()), State(), t, b)
    {
      ApplyKeepsOthers(State(), Write.UpdateAccountData(a, account), t);
      hide StatelessSame;
      accountUpdates := accountUpdates[a := Some(account)];
    }

    method UpdateAccountCode(a: Address, codeHash: nat)
      requires Valid()
      modifies this
      ensures Valid()
      ensures State() == Apply(old(State()), t, Write.UpdateAccountCode(a, codeHash))
      ensures StatelessAccount(State(), t, a) ==
              if a in old(accountUpdates) && old(accountUpdates)[a].Some?
              then Some(old(accountUpdates)[a].value.(codeHash := codeHash)) else StatelessAccount(old(State()), t, a)
      ensures forall b | b != a :: StatelessSame(old(State()), State(), t, b)
    {
      ApplyKeepsOthers(State(), Write.UpdateAccountCode(a, codeHash), t);
      hide StatelessSame;
      if a in accountUpdates && accountUpdates[a].Some? {
        accountUpdates := accountUpdates[a := Some(accountUpdates[a].value.(codeHash := codeHash))];
      }
    }

    method WriteAccountStorage(a: Address, key: Slot, value: Word)
      requires Valid()
      modifies this
      ensures Valid()
      ensures State() == Apply(old(State()), t, Write.WriteAccountStorage(a, key, value))
      ensures StatelessSlot(State(), t, a, key) == (value, value != 0)
      ensures forall k | k != key :: StatelessSlot(State(), t, a, k) == StatelessSlot(old(State()), t, a, k)
      ensures StatelessAccount(State(), t, a) == StatelessAccount(old(State()), t, a)
      ensures forall b | b != a :: StatelessSame(old(State()), State(), t, b)
    {
      ApplyKeepsOthers(State(), Write.WriteAccountStorage(a, key, value), t);
      hide StatelessSame;
      StaysClean(State(), t, Write.WriteAccountStorage(a, key, value));
      hide Clean;
      if value == 0 {
        var d := KeysOf(storageDeletes, a);
        storageDeletes := storageDeletes[a := d + {key}];
        if a in storageWrites {
          storageWrites := storageWrites[a := storageWrites[a] - {key}];
        }
      } else {
        var m := SlotsOf(storageWrites, a);
        storageWrites := storageWrites[a := m[key := value]];
        if a in storageDeletes {
          storageDeletes := storageDeletes[a := storageDeletes[a] - {key}];
        }
      }
    }

    method CreateContract(a: Address)
      requires Valid()
      modifies this
      ensures Valid()
      ensures State() == Apply(old(State()), t, Write.CreateContract(a))
      ensures StatelessAccount(State(), t, a) == if a in accountUpdates then accountUpdates[a] else t.account(a)
      ensures forall k :: StatelessSlot(State(), t, a, k) == StatelessSlot(old(State()), t, a, k)
      ensures forall b | b != a :: StatelessSame(old(State()), State(), t, b)
    {
      ApplyKeepsOthers(State(), Write.CreateContract(a), t);
      hide StatelessSame;
      created := created + {a};
      deleted := deleted - {a};
    }

    method DeleteAccount(a: Address)
      requires Valid()
      modifies this
      ensures Valid()
      ensures State() == Apply(old(State()), t, Write.DeleteAccount(a))
      ensures StatelessAccount(State(), t, a) == None
      ensures forall k :: StatelessSlot(State(), t, a, k) == StatelessSlot(old(State()), t, a, k)
      ensures forall b | b != a :: StatelessSame(old(State()), State(), t, b)
    {
      ApplyKeepsOthers(State(), Write.DeleteAccount(a), t);
      hide StatelessSame;
      StaysClean(State(), t, Write.DeleteAccount(a));
      hide Clean;
      if t.account(a) == None && a !in accountUpdates {
        return;
      }
      accountUpdates := accountUpdates[a := None];
      deleted := deleted + {a};
    }
  }

  // ---------- Whole runs ----------

  function RecordAll(log: seq<Write>): Recorded {
    if log == [] then NOTHING_RECORDED else Record(RecordAll(log[..|log| - 1]), log[|log| - 1])
  }

  function ApplyAll(t: Trie, log: seq<Write>): Stateless {
    if log == [] then NOTHING_WRITTEN else Apply(ApplyAll(t, log[..|log| - 1]), t, log[|log| - 1])
  }

  lemma OneMore(t: Trie, log: seq<Write>, k: nat)
    requires k < |log|
    ensures RecordAll(log[..k + 1]) == Record(RecordAll(log[..k]), log[k])
    ensures ApplyAll(t, log[..k + 1]) == Apply(ApplyAll(t, log[..k]), t, log[k])
  {
    assert log[..k + 1][..k] == log[..k];
  }

  /** Two new overlays that take the same writes end in the states of the two runs. */
  method Replay(inner: Reader, t: Trie, log: seq<Write>)
      returns (recording: RecordingState, stateless: WitnessStateless)
    ensures fresh(recording) && recording.inner == inner && recording.State() == RecordAll(log)
    ensures fresh(stateless) && stateless.t == t && stateless.Valid() && stateless.State() == ApplyAll(t, log)
  {
    hide Record, Apply, Clean;
    recording := new RecordingState(inner);
    stateless := new WitnessStateless(t);
    for k := 0 to |log|
      invariant fresh(recording) && fresh(stateless) && stateless.Valid()
      invariant recording.State() == RecordAll(log[..k]) && stateless.State() == ApplyAll(t, log[..k])
    {
      OneMore(t, log, k);
      match log[k]
      case UpdateAccountData(a, account) =>
        recording.UpdateAccountData(a, account);
        stateless.UpdateAccountData(a, account);
      case UpdateAccountCode(a, codeHash) =>
        recording.UpdateAccountCode(a, codeHash);
        stateless.UpdateAccountCode(a, codeHash);
      case WriteAccountStorage(a, key, value) =>
        recording.WriteAccountStorage(a, key, value);
        stateless.WriteAccountStorage(a, key, value);
      case CreateContract(a) =>
        recording.CreateContract(a);
        stateless.CreateContract(a);
      case DeleteAccount(a) =>
        recording.DeleteAccount(a);
        stateless.DeleteAccount(a);
    }
    assert log[..|log|] == log;
  }

  lemma {:induction false} AlwaysClean(t: Trie, log: seq<Write>)
    ensures Clean(ApplyAll(t, log))
  {
    hide Clean, Apply;
    if log == [] {
      EmptyIsClean();
    } else {
      AlwaysClean(t, log[..|log| - 1]);
      StaysClean(ApplyAll(t, log[..|log| - 1]), t, log[|log| - 1]);
    }
  }

  /** The recording holds the last write of everything about an account that is not deleted. */
  ghost predicate Follows(s: Recorded, log: seq<Write>, a: Address) {
    && a !in s.deletedAccounts
    && (a in s.accountOverlay <==> Updated(log, a))
    && (forall base | a in s.accountOverlay :: AccountAfter(base, log, a) == Some(s.accountOverlay[a]))
    && (forall k :: k in KeysOf(s.modifiedStorage, a) <==> LastValue(log, a, k).Some?)
    && (forall k :: k in SlotsOf(s.storageOverlay, a) <==> LastValue(log, a, k).Some?)
    && (forall k | k in SlotsOf(s.storageOverlay, a) :: LastValue(log, a, k).value == SlotsOf(s.storageOverlay, a)[k])
  }

  lemma Last(log: seq<Write>, w: Write, a: Address)
    ensures forall k :: LastValue(log + [w], a, k) ==
              if w.WriteAccountStorage? && w.address == a && w.key == k then Some(w.value) else LastValue(log, a, k)
    ensures Updated(log + [w], a) <==> Updated(log, a) || (w.UpdateAccountData? && w.address == a)
  {
    assert (log + [w])[..|log|] == log;
    assert (log + [w])[|log|] == w;
    assert forall i | 0 <= i < |log| :: (log + [w])[i] == log[i];
  }

  lemma AccountLast(base: Option<Account>, log: seq<Write>, w: Write, a: Address)
    ensures AccountAfter(base, log + [w], a) ==
              if w.address != a then AccountAfter(base, log, a)
              else if w.UpdateAccountData? then Some(w.account)
              else if w.UpdateAccountCode? && Updated(log, a) then
                Some(AccountAfter(base, log, a).value.(codeHash := w.codeHash))
              else AccountAfter(base, log, a)
  {
    assert (log + [w])[..|log|] == log;
    assert (log + [w])[|log|] == w;
  }

  lemma FollowStep(s: Recorded, log: seq<Write>, w: Write, a: Address)
    requires Follows(s, log, a) && !(w.DeleteAccount? && w.address == a)
    ensures Follows(Record(s, w), log + [w], a)
  {
    hide AccountAfter, LastValue, Updated;
    Last(log, w, a);
    forall base { AccountLast(base, log, w, a); }
  }

  lemma {:induction false} RecordingFollows(log: seq<Write>, a: Address)
    requires Undeleted(log, a)
    ensures Follows(RecordAll(log), log, a)
  {
    hide Record;
    if log != [] {
      var init, w := log[..|log| - 1], log[|log| - 1];
      RecordingFollows(init, a);
      FollowStep(RecordAll(init), init, w, a);
      assert init + [w] == log;
    }
  }

  ghost predicate Trails(s: Stateless, log: seq<Write>, a: Address) {
    && a !in s.deleted && TrailsAccount(s, log, a)
    && TrailsSlots(KeysOf(s.storageDeletes, a), SlotsOf(s.storageWrites, a), log, a)
  }

  ghost predicate TrailsAccount(s: Stateless, log: seq<Write>, a: Address) {
    && (a in s.accountUpdates <==> Updated(log, a))
    && (forall base | a in s.accountUpdates :: AccountAfter(base, log, a) == s.accountUpdates[a])
  }

  ghost predicate TrailsSlots(deletes: set<Slot>, writes: map<Slot, Word>, log: seq<Write>, a: Address) {
    && (forall k :: k in deletes <==> LastValue(log, a, k) == Some(0))
    && (forall k :: k in writes <==> LastValue(log, a, k).Some? && LastValue(log, a, k).value != 0)
    && (forall k | k in writes :: LastValue(log, a, k).value == writes[k])
  }

  lemma TrailStepAccount(s: Stateless, t: Trie, log: seq<Write>, w: Write, a: Address)
    requires TrailsAccount(s, log, a) && !(w.DeleteAccount? && w.address == a)
    ensures TrailsAccount(Apply(s, t, w), log + [w], a)
  {
    hide AccountAfter, LastValue, Updated;
    Last(log, w, a);
    forall base { AccountLast(base, log, w, a); }
  }

  lemma TrailStepSlots(deletes: set<Slot>, writes: map<Slot, Word>, log: seq<Write>, w: Write, a: Address)
    requires TrailsSlots(deletes, writes, log, a)
    ensures if w.WriteAccountStorage? && w.address == a then
              if w.value == 0 then TrailsSlots(deletes + {w.key}, writes - {w.key}, log + [w], a)
              else TrailsSlots(deletes - {w.key}, writes[w.key := w.value], log + [w], a)
            else TrailsSlots(deletes, writes, log + [w], a)
  {
    hide LastValue, Updated;
    Last(log, w, a);
  }

  lemma TrailStep(s: Stateless, t: Trie, log: seq<Write>, w: Write, a: Address)
    requires Trails(s, log, a) && !(w.DeleteAccount? && w.address == a)
    ensures Trails(Apply(s, t, w), log + [w], a)
  {
    TrailStepAccount(s, t, log, w, a);
    hide TrailsAccount, TrailsSlots;
    TrailStepSlots(KeysOf(s.storageDeletes, a), SlotsOf(s.storageWrites, a), log, w, a);
    var after := Apply(s, t, w);
    if w.WriteAccountStorage? && w.address == a {
      if w.value == 0 {
        assert SlotsOf(after.storageWrites, a) == SlotsOf(s.storageWrites, a) - {w.key};
      } else {
        assert KeysOf(after.storageDeletes, a) == KeysOf(s.storageDeletes, a) - {w.key};
      }
    }
  }

  lemma {:induction false} WitnessTrails(t: Trie, log: seq<Write>, a: Address)
    requires Undeleted(log, a)
    ensures Trails(ApplyAll(t, log), log, a)
  {
    hide Apply;
    if log != [] {
      var init, w := log[..|log| - 1], log[|log| - 1];
      WitnessTrails(t, init, a);
      TrailStep(ApplyAll(t, init), t, init, w, a);
      assert init + [w] == log;
    }
  }

  /** Every read of the recording is answered by the last write, and by the base if there was none. */
  lemma RecordingReads(inner: Reader, log: seq<Write>, a: Address, k: Slot)
    requires Undeleted(log, a)
    ensures RecordedAccount(RecordAll(log), inner, a) == AccountAfter(inner.account(a), log, a)
    ensures RecordedSlot(RecordAll(log), inner, a, k) == SlotAfter(inner.storage(a, k), log, a, k)
    ensures RecordedHasStorage(RecordAll(log), inner, a) <==> HasStorageAfter(inner.hasStorage(a), log, a)
  {
    hide RecordAll, LastValue;
    RecordingFollows(log, a);
    var slots := SlotsOf(RecordAll(log).storageOverlay, a);
    assert forall j :: LastValue(log, a, j).Some? && LastValue(log, a, j).value != 0 <==> j in slots && slots[j] != 0;
  }

  lemma WitnessReads(t: Trie, log: seq<Write>, a: Address, k: Slot)
    requires Undeleted(log, a)
    ensures StatelessAccount(ApplyAll(t, log), t, a) == AccountAfter(t.account(a), log, a)
    ensures StatelessSlot(ApplyAll(t, log), t, a, k) == SlotAfter(Found(t.slot(a, k)), log, a, k)
    ensures StatelessHasStorage(ApplyAll(t, log), t, a) <==> HasStorageAfter(HasRoot(t.account(a)), log, a)
  {
    hide ApplyAll, LastValue;
    WitnessTrails(t, log, a);
    var slots := SlotsOf(ApplyAll(t, log).storageWrites, a);
    assert forall j :: LastValue(log, a, j).Some? && LastValue(log, a, j).value != 0 <==> j in slots && slots[j] != 0;
  }

  /** Over the same base the overlays cannot be told apart by reading an account that is not deleted. */
  lemma SameAnswers(inner: Reader, t: Trie, log: seq<Write>, a: Address, k: Slot)
    requires SameBase(inner, t) && Undeleted(log, a)
    ensures RecordedAccount(RecordAll(log), inner, a) == StatelessAccount(ApplyAll(t, log), t, a)
    ensures RecordedSlot(RecordAll(log), inner, a, k) == StatelessSlot(ApplyAll(t, log), t, a, k)
    ensures RecordedHasStorage(RecordAll(log), inner, a) == StatelessHasStorage(ApplyAll(t, log), t, a)
  {
    hide RecordAll, ApplyAll, AccountAfter, SlotAfter, HasStorageAfter;
    hide RecordedAccount, RecordedSlot, RecordedHasStorage, StatelessAccount, StatelessSlot, StatelessHasStorage;
    RecordingReads(inner, log, a, k);
    WitnessReads(t, log, a, k);
  }

  predicate Leaves(log: seq<Write>, a: Address) {
    forall i | 0 <= i < |log| :: log[i].address != a
  }

  lemma RunNext(t: Trie, log: seq<Write>, w: Write)
    ensures RecordAll(log + [w]) == Record(RecordAll(log), w)
    ensures ApplyAll(t, log + [w]) == Apply(ApplyAll(t, log), t, w)
  {
    hide Record, Apply;
    assert (log + [w])[..|log|] == log;
  }

  lemma SameSame(inner: Reader, t: Trie, r: (Recorded, Recorded, Recorded), s: (Stateless, Stateless, Stateless),
                 a: Address)
    requires RecordedSame(r.0, r.1, inner, a) && RecordedSame(r.1, r.2, inner, a)
    requires StatelessSame(s.0, s.1, t, a) && StatelessSame(s.1, s.2, t, a)
    ensures RecordedSame(r.0, r.2, inner, a) && StatelessSame(s.0, s.2, t, a)
  {
    hide RecordedAccount, RecordedSlot, RecordedHasStorage, StatelessAccount, StatelessSlot, StatelessHasStorage;
  }

  /** What happens to other accounts afterwards changes no answer. */
  lemma {:induction false} LaterWrites(inner: Reader, t: Trie, log: seq<Write>, after: seq<Write>, a: Address)
    requires Leaves(after, a)
    ensures RecordedSame(RecordAll(log), RecordAll(log + after), inner, a)
    ensures StatelessSame(ApplyAll(t, log), ApplyAll(t, log + after), t, a)
    decreases |after|
  {
    hide Record, Apply, RecordAll, ApplyAll, RecordedSame, StatelessSame;
    if after == [] {
      assert log + after == log;
      ItselfSame(inner, t, RecordAll(log), ApplyAll(t, log), a);
    } else {
      var front, w := after[..|after| - 1], after[|after| - 1];
      LaterWrites(inner, t, log, front, a);
      RunNext(t, log + front, w);
      assert log + after == log + front + [w];
      var r, s := RecordAll(log + front), ApplyAll(t, log + front);
      RecordKeepsOthers(r, w, inner);
      ApplyKeepsOthers(s, w, t);
      SameSame(inner, t, (RecordAll(log), r, Record(r, w)), (ApplyAll(t, log), s, Apply(s, t, w)), a);
    }
  }

  lemma ItselfSame(inner: Reader, t: Trie, r: Recorded, s: Stateless, a: Address)
    ensures RecordedSame(r, r, inner, a) && StatelessSame(s, s, t, a)
  {
  }

  /** A deletion that the witness overlay does not carry out: the account is neither in the trie nor updated. */
  predicate SkipsDelete(t: Trie, log: seq<Write>, a: Address) {
    t.account(a) == None && !Updated(log, a)
  }

  /**
   After a deletion, whatever happens to others, the accounts still agree. The slots agree exactly
   where there was nothing to read, as the witness overlay goes on answering for them. HasStorage
   agrees exactly if the deletion is not skipped after a write that is not zero.
   */
  lemma DeletionParts(inner: Reader, t: Trie, log: seq<Write>, after: seq<Write>, a: Address, k: Slot)
    requires SameBase(inner, t) && Undeleted(log, a) && Leaves(after, a)
    ensures var gone := log + [DeleteAccount(a)] + after;
            && RecordedAccount(RecordAll(gone), inner, a) == None == StatelessAccount(ApplyAll(t, gone), t, a)
            && RecordedSlot(RecordAll(gone), inner, a, k) == (0, false)
            && StatelessSlot(ApplyAll(t, gone), t, a, k) == SlotAfter(inner.storage(a, k), log, a, k)
            && !RecordedHasStorage(RecordAll(gone), inner, a)
            && (StatelessHasStorage(ApplyAll(t, gone), t, a) <==>
                SkipsDelete(t, log, a) && HasStorageAfter(false, log, a))
  {
    var gone := log + [DeleteAccount(a)];
    LaterWrites(inner, t, gone, after, a);
    RecordingFollows(log, a);
    WitnessTrails(t, log, a);
    WitnessReads(t, log, a, k);
    hide LastValue, AccountAfter, Updated, SlotAfter;
    assert gone[..|log|] == log;
  }

  /**
   Creating the account again brings back the base account in the recording only: the accounts agree
   exactly if there was none.
   */
  lemma RecreationParts(inner: Reader, t: Trie, log: seq<Write>, after: seq<Write>, a: Address)
    requires SameBase(inner, t) && Undeleted(log, a) && Leaves(after, a)
    ensures var again := log + [DeleteAccount(a)] + [CreateContract(a)] + after;
            && RecordedAccount(RecordAll(again), inner, a) == inner.account(a)
            && StatelessAccount(ApplyAll(t, again), t, a) == None
  {
    var gone := log + [DeleteAccount(a)];
    LaterWrites(inner, t, gone + [CreateContract(a)], after, a);
    WitnessTrails(t, log, a);
    hide LastValue, AccountAfter, Updated;
    assert gone[..|log|] == log;
    assert (gone + [CreateContract(a)])[..|gone|] == gone;
  }
}
