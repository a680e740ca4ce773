/**
 The struct-reference graph of a set of EIP-712 types, and the depth-first search that decides
 whether a cycle can be reached from a type.
 */
module TypeGraph {
  import opened Wrappers

  /** A member of a struct type; its type may be missing in a malformed document. */
  datatype Field = Field(name: Option<string>, ty: Option<string>)

  type Types = map<string, seq<Field>>

  datatype TypeError =
    | TypeDepthLimit | ValueLimit | InvalidType | InvalidDefinition | Unresolved | ExpectedStruct | NoWord

  /** `base` is `name` up to its first array suffix, or all of it. */
  predicate IsBase(base: string, name: string) {
    && '[' !in base
    && base <= name
    && (base == name || name[|base|] == '[')
  }

  /** The name before the first array suffix. */
  function Root(name: string): (base: string)
    ensures IsBase(base, name)
  {
    if name == "" || name[0] == '[' then "" else
      var rest := Root(name[1..]);
      assert rest == name[1..][..|rest|];
      [name[0]] + rest
  }

  /** A name has no other base. */
  lemma RootOnly(base: string, name: string)
    ensures IsBase(base, name) <==> base == Root(name)
  {
    var root := Root(name);
    if IsBase(base, name) {
      assert forall i | 0 <= i < |root| :: root[i] == name[i] != '[';
      assert forall i | 0 <= i < |base| :: base[i] == name[i] != '[';
      assert |base| == |root|;
    }
  }

  lemma RootOfSplit(base: string, suffix: string)
    requires '[' !in base && (suffix == "" || suffix[0] == '[')
    ensures Root(base + suffix) == base
  {
    RootOnly(base, base + suffix);
  }

  function Brackets(name: string): (n: nat)
    ensures n == multiset(name)['[']
  {
    if name == "" then 0 else
      assert name == [name[0]] + name[1..];
      (if name[0] == '[' then 1 else 0) + Brackets(name[1..])
  }

  // ---------- Walks ----------

  /** A struct type refers to the base types of its members. */
  predicate Edge(types: Types, a: string, b: string) {
    a in types && exists i | 0 <= i < |types[a]| :: types[a][i].ty.Some? && IsBase(b, types[a][i].ty.value)
  }

  predicate Walk(types: Types, w: seq<string>) {
    w != [] && forall i | 0 <= i < |w| - 1 :: Edge(types, w[i], w[i + 1])
  }

  predicate WalkTo(types: Types, a: string, b: string, w: seq<string>) {
    Walk(types, w) && w[0] == a && w[|w| - 1] == b
  }

  ghost predicate Reachable(types: Types, a: string, b: string) {
    exists w :: WalkTo(types, a, b, w)
  }

  /** Some type that can be reached refers, directly or not, to itself. */
  ghost predicate CycleReachable(types: Types, a: string) {
    exists x, out, back :: WalkTo(types, a, x, out) && WalkTo(types, x, x, back) && |back| >= 2
  }

  /** A walk that ends in a name of the path, or in one it has been to. */
  predicate Lasso(types: Types, a: string, path: seq<string>, w: seq<string>) {
    Walk(types, w) && w[0] == a && w[|w| - 1] in path + w[..|w| - 1]
  }

  ghost predicate HasLasso(types: Types, a: string, path: seq<string>) {
    exists w :: Lasso(types, a, path, w)
  }

  lemma LassoFromEdge(types: Types, a: string, b: string, path: seq<string>, w: seq<string>)
    requires Edge(types, a, b)
    requires Lasso(types, b, path + [a], w)
    ensures Lasso(types, a, path, [a] + w)
  {
    var v := [a] + w;
    assert v[..|v| - 1] == [a] + w[..|w| - 1];
    assert v[|v| - 1] == w[|w| - 1];
  }

  lemma LassoToEdge(types: Types, a: string, path: seq<string>, w: seq<string>)
    requires Lasso(types, a, path, w)
    requires a !in path
    ensures |w| >= 2 && Edge(types, a, w[1]) && Lasso(types, w[1], path + [a], w[1..])
  {
    if |w| == 1 {
      assert false;
    } else {
      var v := w[1..];
      assert w[..|w| - 1] == [a] + v[..|v| - 1];
      assert Edge(types, w[0], w[1]);
      forall i | 0 <= i < |v| - 1
        ensures Edge(types, v[i], v[i + 1])
      {
        assert Edge(types, w[i + 1], w[i + 1 + 1]);
      }
    }
  }

  /** A name off the path closes a lasso exactly if some type it refers to does. */
  lemma LassoStep(types: Types, a: string, path: seq<string>)
    requires a !in path
    ensures HasLasso(types, a, path) <==> exists b :: Edge(types, a, b) && HasLasso(types, b, path + [a])
  {
    if HasLasso(types, a, path) {
      var w :| Lasso(types, a, path, w);
      LassoToEdge(types, a, path, w);
      assert HasLasso(types, w[1], path + [a]);
    }
    if b :| Edge(types, a, b) && HasLasso(types, b, path + [a]) {
      var w :| Lasso(types, b, path + [a], w);
      LassoFromEdge(types, a, b, path, w);
    }
  }

  lemma LassoNow(types: Types, a: string, path: seq<string>)
    requires a in path
    ensures HasLasso(types, a, path)
  {
    assert Lasso(types, a, path, [a]);
  }

  lemma LassoCloses(types: Types, a: string, w: seq<string>)
    requires Lasso(types, a, [], w)
    ensures CycleReachable(types, a)
  {
    hide Walk;
    var last := w[|w| - 1];
    assert [] + w[..|w| - 1] == w[..|w| - 1];
    var i :| 0 <= i < |w| - 1 && w[i] == last;
    SubWalk(types, w, 0, i + 1);
    SubWalk(types, w, i, |w|);
    assert WalkTo(types, a, last, w[0..i + 1]);
    assert WalkTo(types, last, last, w[i..|w|]);
  }

  lemma CycleUnrolls(types: Types, a: string, x: string, out: seq<string>, back: seq<string>)
    requires WalkTo(types, a, x, out) && WalkTo(types, x, x, back) && |back| >= 2
    ensures Lasso(types, a, [], out + back[1..])
  {
    JoinWalks(types, out, back);
    var w := out + back[1..];
    assert w[..|w| - 1][|out| - 1] == x == w[|w| - 1];
  }

  /** From an empty path, a lasso is a reachable cycle. */
  lemma LassoIsCycle(types: Types, a: string)
    ensures HasLasso(types, a, []) <==> CycleReachable(types, a)
  {
    hide Lasso, WalkTo;
    if HasLasso(types, a, []) {
      var w :| Lasso(types, a, [], w);
      LassoCloses(types, a, w);
    }
    if CycleReachable(types, a) {
      var x, out, back :| WalkTo(types, a, x, out) && WalkTo(types, x, x, back) && |back| >= 2;
      CycleUnrolls(types, a, x, out, back);
    }
  }

  lemma SubWalk(types: Types, w: seq<string>, i: nat, j: nat)
    requires Walk(types, w)
    requires i < j <= |w|
    ensures Walk(types, w[i..j])
  {
    var v := w[i..j];
    forall k | 0 <= k < |v| - 1
      ensures Edge(types, v[k], v[k + 1])
    {
      assert Edge(types, w[i + k], w[i + k + 1]);
    }
  }

  lemma JoinWalks(types: Types, a: seq<string>, b: seq<string>)
    requires Walk(types, a) && Walk(types, b)
    requires a[|a| - 1] == b[0]
    ensures Walk(types, a + b[1..])
  {
    var w := a + b[1..];
    forall i | 0 <= i < |w| - 1
      ensures Edge(types, w[i], w[i + 1])
    {
      if i < |a| - 1 {
        assert Edge(types, a[i], a[i + 1]);
      } else {
        assert Edge(types, b[i - |a| + 1], b[i - |a| + 1 + 1]);
      }
    }
  }

  // ---------- The search ----------

  predicate Distinct(path: seq<string>) {
    forall i, j | 0 <= i < j < |path| :: path[i] != path[j]
  }

  /** The limits on one name. */
  predicate Fits(name: string) {
    |name| <= 4096 && multiset(name)['['] <= 64
  }

  /** Every member of a struct at the end of `path` has a type that can be searched in turn. */
  predicate MembersFit(types: Types, name: string, path: seq<string>)
    requires name in types
  {
    && (types[name] != [] ==> |path| <= 64)
    && forall i | 0 <= i < |types[name]| :: types[name][i].ty.Some? && Fits(types[name][i].ty.value)
  }

  /** A walk that the search takes: structs only, and none twice. */
  predicate Descent(types: Types, a: string, path: seq<string>, w: seq<string>) {
    Walk(types, w) && w[0] == a && Distinct(path + w) && forall x | x in w :: x in types
  }

  /** A walk of the search that leads to a struct whose members do not fit. */
  predicate Blocks(types: Types, a: string, path: seq<string>, w: seq<string>) {
    Descent(types, a, path, w) && !MembersFit(types, w[|w| - 1], path + w)
  }

  ghost predicate Blocked(types: Types, a: string, path: seq<string>) {
    exists w :: Blocks(types, a, path, w)
  }

  /** The calls of the search: one, and those for the members of a struct that is not on the path. */
  function Calls(types: Types, name: string, path: seq<string>): (n: nat)
    ensures n >= 1
    decreases 65 - |path|, 0
  {
    var root := Root(name);
    if |path| > 64 || root in path || root !in types then 1
    else 1 + SumCalls(types, types[root], path + [root], |types[root]|)
  }

  function SumCalls(types: Types, fields: seq<Field>, path: seq<string>, k: nat): nat
    requires k <= |fields|
    decreases 65 - |path|, 1, k
  {
    if k == 0 then 0 else
      SumCalls(types, fields, path, k - 1) +
      if fields[k - 1].ty.Some? then Calls(types, fields[k - 1].ty.value, path) else 0
  }

  lemma {:induction false} SumCallsMonotone(types: Types, fields: seq<Field>, path: seq<string>, j: nat, k: nat)
    requires j <= k <= |fields|
    ensures SumCalls(types, fields, path, j) <= SumCalls(types, fields, path, k)
  {
    hide Calls;
    if j < k {
      SumCallsMonotone(types, fields, path, j, k - 1);
    }
  }

  lemma NotBlocked(types: Types, a: string, path: seq<string>)
    requires a in path || a !in types
    ensures !Blocked(types, a, path)
  {
    forall w | w != [] && w[0] == a
      ensures !Blocks(types, a, path, w)
    {
      var v := path + w;
      assert a in w && v[|path|] == a;
      if i :| 0 <= i < |path| && path[i] == a {
        assert v[i] == a;
        assert !Distinct(v);
      }
    }
  }

  lemma BlockedHere(types: Types, a: string, path: seq<string>)
    requires a in types && a !in path && Distinct(path)
    requires !MembersFit(types, a, path + [a])
    ensures Blocked(types, a, path)
  {
    assert Blocks(types, a, path, [a]);
  }

  lemma BlockedAbove(types: Types, a: string, path: seq<string>, j: nat)
    requires a in types && j < |types[a]| && types[a][j].ty.Some?
    requires Blocked(types, Root(types[a][j].ty.value), path + [a])
    ensures Blocked(types, a, path)
  {
    hide MembersFit, Root, IsBase;
    var b := Root(types[a][j].ty.value);
    var w :| Blocks(types, b, path + [a], w);
    assert Edge(types, a, b);
    assert path + ([a] + w) == path + [a] + w;
    assert Walk(types, [a, b]);
    JoinWalks(types, [a, b], w);
    assert [a, b] + w[1..] == [a] + w;
    assert Blocks(types, a, path, [a] + w);
  }

  /** A struct whose members fit is blocked only by one of them. */
  lemma BlockedBelow(types: Types, a: string, path: seq<string>)
    requires a in types && MembersFit(types, a, path + [a])
    requires Blocked(types, a, path)
    ensures exists j :: 0 <= j < |types[a]| && Blocked(types, Root(types[a][j].ty.value), path + [a])
  {
    hide Root, IsBase;
    var w :| Blocks(types, a, path, w);
    if |w| > 1 {
      var v := w[1..];
      assert Edge(types, w[0], w[0 + 1]);
      var j :| 0 <= j < |types[a]| && types[a][j].ty.Some? && IsBase(v[0], types[a][j].ty.value);
      RootOnly(v[0], types[a][j].ty.value);
      SubWalk(types, w, 1, |w|);
      assert w[1..|w|] == v;
      assert path + w == path + [a] + v;
      assert Blocks(types, v[0], path + [a], v);
    }
  }

  /**
   The search answers whether the name closes a lasso with the path, and restores the path. It fails
   exactly if it comes to a name that does not fit, or makes more calls than it may.
   */
  method CheckType(types: Types, name: string, path: seq<string>, nodes: nat)
      returns (r: Result<bool, TypeError>, trail: seq<string>, left: nat)
    requires Distinct(path)
    ensures r.Ok? ==> (r.value <==> HasLasso(types, Root(name), path))
    ensures r.Ok? ==> trail == path && left + Calls(types, name, path) == nodes
    ensures r.Ok? <==>
            && |path| <= 64 && Fits(name) && !Blocked(types, Root(name), path)
            && Calls(types, name, path) <= nodes
    ensures r.Err? ==>
              if r.error == ValueLimit then Calls(types, name, path) > nodes
              else
                && r.error in {TypeDepthLimit, InvalidType}
                && !(|path| <= 64 && Fits(name) && !Blocked(types, Root(name), path))
    decreases 66 - |path|
  {
    hide Root, IsBase, Blocked, HasLasso, MembersFit, Edge;
    trail, left := path, nodes;
    if |path| > 64 || |name| > 4096 || Brackets(name) > 64 {
      return Err(TypeDepthLimit), trail, left;
    }
    if left == 0 {
      return Err(ValueLimit), trail, left;
    }
    left := left - 1;
    var root := Root(name);
    if root in trail {
      LassoNow(types, root, path);
      NotBlocked(types, root, path);
      return Ok(true), trail, left;
    }
    LassoStep(types, root, path);
    var recursive := false;
    if root in types {
      var fields := types[root];
      trail := trail + [root];
      for i := 0 to |fields|
        invariant trail == path + [root]
        invariant left + 1 + SumCalls(types, fields, trail, i) == nodes
        invariant i > 0 ==> |trail| <= 64
        invariant forall j | 0 <= j < i ::
                    && fields[j].ty.Some? && Fits(fields[j].ty.value)
                    && !Blocked(types, Root(fields[j].ty.value), trail)
        invariant recursive <==>
                  exists j | 0 <= j < i :: HasLasso(types, Root(fields[j].ty.value), path + [root])
      {
        if fields[i].ty.None? {
          MemberBlocks(types, root, path, i);
          return Err(InvalidType), trail, left;
        }
        SumCallsMonotone(types, fields, trail, i + 1, |fields|);
        var inner;
        inner, trail, left := CheckType(types, fields[i].ty.value, trail, left);
        if inner.Err? {
          if inner.error != ValueLimit {
            MemberBlocks(types, root, path, i);
          }
          return Err(inner.error), trail, left;
        }
        recursive := recursive || inner.value;
      }
      NothingBlocks(types, root, path);
      ChildrenDecide(types, root, path + [root]);
      trail := trail[..|trail| - 1];
      assert trail == path;
    } else {
      NotBlocked(types, root, path);
      NoMembers(types, root);
    }
    return Ok(recursive), trail, left;
  }

  lemma NoMembers(types: Types, a: string)
    requires a !in types
    ensures forall b :: !Edge(types, a, b)
  {
  }

  lemma MemberBlocks(types: Types, a: string, path: seq<string>, i: nat)
    requires a in types && a !in path && Distinct(path) && i < |types[a]|
    requires var ty := types[a][i].ty;
             ty.None? || !(|path| + 1 <= 64 && Fits(ty.value) && !Blocked(types, Root(ty.value), path + [a]))
    ensures Blocked(types, a, path)
  {
    hide Blocked, Root, IsBase;
    var ty := types[a][i].ty;
    if ty.Some? && |path| + 1 <= 64 && Fits(ty.value) {
      BlockedAbove(types, a, path, i);
    } else {
      BlockedHere(types, a, path);
    }
  }

  lemma NothingBlocks(types: Types, a: string, path: seq<string>)
    requires a in types
    requires types[a] != [] ==> |path| + 1 <= 64
    requires forall j | 0 <= j < |types[a]| ::
               && types[a][j].ty.Some? && Fits(types[a][j].ty.value)
               && !Blocked(types, Root(types[a][j].ty.value), path + [a])
    ensures !Blocked(types, a, path)
  {
    hide Blocked, Root, IsBase, Fits;
    if Blocked(types, a, path) {
      BlockedBelow(types, a, path);
    }
  }

  lemma ChildrenDecide(types: Types, a: string, path: seq<string>)
    requires a in types
    requires forall j | 0 <= j < |types[a]| :: types[a][j].ty.Some?
    ensures (exists b :: Edge(types, a, b) && HasLasso(types, b, path)) <==>
            (exists j | 0 <= j < |types[a]| :: HasLasso(types, Root(types[a][j].ty.value), path))
  {
    hide Root;
    if b :| Edge(types, a, b) && HasLasso(types, b, path) {
      var i :| 0 <= i < |types[a]| && types[a][i].ty.Some? && IsBase(b, types[a][i].ty.value);
      RootOnly(b, types[a][i].ty.value);
    }
    if j :| 0 <= j < |types[a]| && HasLasso(types, Root(types[a][j].ty.value), path) {
      assert Edge(types, a, Root(types[a][j].ty.value));
    }
  }

  /** From an empty path the answer is whether a cycle can be reached from the primary type. */
  method IsRecursive(types: Types, primary: string) returns (r: Result<bool, TypeError>)
    ensures r.Ok? ==> forall base | IsBase(base, primary) :: r.value <==> CycleReachable(types, base)
    ensures r.Ok? <==>
            && Fits(primary) && !Blocked(types, Root(primary), [])
            && Calls(types, primary, []) <= 100_000
    ensures r.Err? ==> r.error in {TypeDepthLimit, ValueLimit, InvalidType}
  {
    hide Root, IsBase, Blocked, HasLasso, CycleReachable, Calls;
    var trail, left;
    r, trail, left := CheckType(types, primary, [], 100_000);
    LassoIsCycle(types, Root(primary));
    forall base | IsBase(base, primary)
      ensures base == Root(primary)
    {
      RootOnly(base, primary);
    }
  }
}
