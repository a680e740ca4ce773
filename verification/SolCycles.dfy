/**
 When the component tree of a Solidity type ends. Its recursion has no bound: it follows the member
 types of structs, all looked up from one owner, for as long as they are structs again.
 */
module SolCycles {
  import opened ArraySuffix
  import opened SolTypes
  import opened Wrappers

  predicate IsStruct(registry: Registry, owner: string, name: string) {
    ResolveStruct(name, owner, registry).Some?
  }

  /** A struct has a member of another struct's type, or of an array of it. */
  predicate HasMember(registry: Registry, owner: string, a: string, b: string) {
    && IsStruct(registry, owner, a)
    && var fields := ResolveStruct(a, owner, registry).value.fields;
       exists i | 0 <= i < |fields| :: Split(fields[i].ty).0 == b
  }

  /** Structs one below the other. */
  predicate Chain(registry: Registry, owner: string, w: seq<string>) {
    && w != []
    && (forall i | 0 <= i < |w| :: IsStruct(registry, owner, w[i]))
    && (forall i | 0 <= i < |w| - 1 :: HasMember(registry, owner, w[i], w[i + 1]))
  }

  predicate ChainFrom(registry: Registry, owner: string, a: string, n: nat, w: seq<string>) {
    Chain(registry, owner, w) && |w| == n && w[0] == a
  }

  ghost predicate HasChain(registry: Registry, owner: string, a: string, n: nat) {
    exists w :: ChainFrom(registry, owner, a, n, w)
  }

  lemma ChainTail(registry: Registry, owner: string, w: seq<string>)
    requires Chain(registry, owner, w) && |w| > 1
    ensures HasMember(registry, owner, w[0], w[1]) && Chain(registry, owner, w[1..])
  {
    var v := w[1..];
    assert HasMember(registry, owner, w[0], w[0 + 1]);
    forall i | 0 <= i < |v| - 1
      ensures HasMember(registry, owner, v[i], v[i + 1])
    {
      assert HasMember(registry, owner, w[i + 1], w[i + 1 + 1]);
    }
  }

  lemma ChainExtend(registry: Registry, owner: string, a: string, w: seq<string>)
    requires Chain(registry, owner, w) && HasMember(registry, owner, a, w[0])
    ensures Chain(registry, owner, [a] + w)
  {
    var v := [a] + w;
    forall i | 0 <= i < |v| - 1
      ensures HasMember(registry, owner, v[i], v[i + 1])
    {
      if i > 0 {
        assert HasMember(registry, owner, w[i - 1], w[i - 1 + 1]);
      }
    }
  }

  /** `n` levels are too few exactly if there is a chain of one struct more. */
  lemma UnfoldsUnlessChain(ty: string, owner: string, registry: Registry, n: nat)
    ensures Unfolds(ty, owner, registry, n) <==> !HasChain(registry, owner, Split(ty).0, n + 1)
  {
    hide Split, Chain, HasMember;
    var base := Split(ty).0;
    if HasChain(registry, owner, base, n + 1) {
      var w :| ChainFrom(registry, owner, base, n + 1, w);
      LongChainStays(ty, owner, registry, n, w);
    } else if IsStruct(registry, owner, base) {
      NoChainUnfolds(ty, owner, registry, n);
    }
  }

  lemma {:induction false} LongChainStays(ty: string, owner: string, registry: Registry, n: nat, w: seq<string>)
    requires ChainFrom(registry, owner, Split(ty).0, n + 1, w)
    ensures !Unfolds(ty, owner, registry, n)
    decreases n
  {
    hide Split, ResolveStruct;
    if n > 0 {
      ChainTail(registry, owner, w);
      var fields := ResolveStruct(w[0], owner, registry).value.fields;
      var i :| 0 <= i < |fields| && Split(fields[i].ty).0 == w[1];
      LongChainStays(fields[i].ty, owner, registry, n - 1, w[1..]);
    }
  }

  lemma {:induction false} NoChainUnfolds(ty: string, owner: string, registry: Registry, n: nat)
    requires !HasChain(registry, owner, Split(ty).0, n + 1)
    ensures Unfolds(ty, owner, registry, n)
    decreases n
  {
    var base := Split(ty).0;
    if IsStruct(registry, owner, base) {
      if n == 0 {
        assert ChainFrom(registry, owner, base, 1, [base]);
      } else {
        var fields := ResolveStruct(base, owner, registry).value.fields;
        forall i | 0 <= i < |fields|
          ensures Unfolds(fields[i].ty, owner, registry, n - 1)
        {
          if HasChain(registry, owner, Split(fields[i].ty).0, n) {
            var w :| ChainFrom(registry, owner, Split(fields[i].ty).0, n, w);
            ChainExtend(registry, owner, base, w);
            assert ChainFrom(registry, owner, base, n + 1, [base] + w);
          }
          NoChainUnfolds(fields[i].ty, owner, registry, n - 1);
        }
      }
    }
  }

  // ---------- Cycles ----------

  predicate Meets(w: seq<string>, i: nat, j: nat) {
    i < j < |w| && w[i] == w[j]
  }

  /** A chain from the struct comes back to where it has been. */
  ghost predicate CycleReachable(registry: Registry, owner: string, a: string) {
    exists w, i, j :: Chain(registry, owner, w) && w[0] == a && Meets(w, i, j)
  }

  lemma ChainPrefix(registry: Registry, owner: string, w: seq<string>, n: nat)
    requires Chain(registry, owner, w) && 1 <= n <= |w|
    ensures Chain(registry, owner, w[..n])
  {
    var v := w[..n];
    forall i | 0 <= i < |v| - 1
      ensures HasMember(registry, owner, v[i], v[i + 1])
    {
      assert HasMember(registry, owner, w[i], w[i + 1]);
    }
  }

  /** Going round once more. */
  lemma Around(registry: Registry, owner: string, w: seq<string>, i: nat, j: nat)
    requires Chain(registry, owner, w) && Meets(w, i, j)
    ensures Chain(registry, owner, w[..j] + w[i..])
    ensures Meets(w[..j] + w[i..], i, j)
  {
    var v := w[..j] + w[i..];
    forall k | 0 <= k < |v|
      ensures IsStruct(registry, owner, v[k])
    {
      assert v[k] == if k < j then w[k] else w[k - j + i];
    }
    forall k | 0 <= k < |v| - 1
      ensures HasMember(registry, owner, v[k], v[k + 1])
    {
      if k < j {
        assert HasMember(registry, owner, w[k], w[k + 1]);
      } else {
        assert HasMember(registry, owner, w[k - j + i], w[k - j + i + 1]);
      }
    }
  }

  lemma {:induction false} CycleUnrolls(registry: Registry, owner: string, w: seq<string>, i: nat, j: nat, n: nat)
    requires Chain(registry, owner, w) && Meets(w, i, j)
    requires n >= 1
    ensures HasChain(registry, owner, w[0], n)
    decreases n - |w|
  {
    if n <= |w| {
      ChainPrefix(registry, owner, w, n);
      assert ChainFrom(registry, owner, w[0], n, w[..n]);
    } else {
      Around(registry, owner, w, i, j);
      CycleUnrolls(registry, owner, w[..j] + w[i..], i, j, n);
    }
  }

  /** The names that are structs to an owner: keys of the table, as they are or under the owner's name. */
  function StructNames(registry: Registry, owner: string): set<string> {
    registry.structs.Keys +
    set key | key in registry.structs && owner + "." <= key :: key[|owner| + 1..]
  }

  lemma StructNamed(registry: Registry, owner: string, name: string)
    requires IsStruct(registry, owner, name)
    ensures name in StructNames(registry, owner)
  {
    var qualified := owner + "." + name;
    if owner != "" && qualified in registry.structs {
      assert owner + "." <= qualified && qualified[|owner| + 1..] == name;
    }
  }

  lemma {:induction false} Repeats(w: seq<string>, names: set<string>)
    requires forall i | 0 <= i < |w| :: w[i] in names
    requires |w| > |names|
    ensures exists i, j :: Meets(w, i, j)
    decreases |w|
  {
    var last := |w| - 1;
    if i :| 0 <= i < last && w[i] == w[last] {
      assert Meets(w, i, last);
    } else {
      var front := w[..last];
      forall i | 0 <= i < |front|
        ensures front[i] in names - {w[last]}
      {
        assert front[i] == w[i];
      }
      Repeats(front, names - {w[last]});
      var i, j :| Meets(front, i, j);
      assert Meets(w, i, j);
    }
  }

  lemma NoCycleEnds(ty: string, owner: string, registry: Registry)
    requires !CycleReachable(registry, owner, Split(ty).0)
    ensures Unfolds(ty, owner, registry, |StructNames(registry, owner)|)
  {
    var names := StructNames(registry, owner);
    if HasChain(registry, owner, Split(ty).0, |names| + 1) {
      var w :| ChainFrom(registry, owner, Split(ty).0, |names| + 1, w);
      forall i | 0 <= i < |w|
        ensures w[i] in names
      {
        StructNamed(registry, owner, w[i]);
      }
      Repeats(w, names);
    }
    NoChainUnfolds(ty, owner, registry, |names|);
  }

  /** The component tree of a type ends exactly if no cycle of structs can be reached from it. */
  lemma TreeEnds(ty: string, owner: string, registry: Registry)
    ensures (exists n: nat :: Unfolds(ty, owner, registry, n)) <==> !CycleReachable(registry, owner, Split(ty).0)
  {
    hide Unfolds, Split, HasMember;
    if CycleReachable(registry, owner, Split(ty).0) {
      var w, i, j :| Chain(registry, owner, w) && w[0] == Split(ty).0 && Meets(w, i, j);
      forall n: nat
        ensures !Unfolds(ty, owner, registry, n)
      {
        CycleUnrolls(registry, owner, w, i, j, n + 1);
        UnfoldsUnlessChain(ty, owner, registry, n);
      }
    } else {
      NoCycleEnds(ty, owner, registry);
      assert Unfolds(ty, owner, registry, |StructNames(registry, owner)|);
    }
  }

  /** A struct with a member of its own type, or of an array of it, among others: the tree of no type of it ends. */
  lemma OwnMember(ty: string, owner: string, registry: Registry, i: nat, n: nat)
    requires IsStruct(registry, owner, Split(ty).0)
    requires var fields := ResolveStruct(Split(ty).0, owner, registry).value.fields;
             i < |fields| && Split(fields[i].ty).0 == Split(ty).0
    ensures !Unfolds(ty, owner, registry, n)
  {
    hide Split, Unfolds, ResolveStruct;
    var w := [Split(ty).0, Split(ty).0];
    assert HasMember(registry, owner, w[0], w[1]);
    assert Chain(registry, owner, w) && Meets(w, 0, 1);
    CycleUnrolls(registry, owner, w, 0, 1, n + 1);
    UnfoldsUnlessChain(ty, owner, registry, n);
  }
}
