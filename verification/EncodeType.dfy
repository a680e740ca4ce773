/**
 The type encoding of EIP-712, section "Definition of encodeType": the definition of the primary
 struct, then every other struct it refers to, in name order. The worklist collects definitions in
 whatever order it meets them. How one definition is printed, and which names that are no struct
 the resolver knows, are parameters: they belong to alloy, which is not part of this model.
 */
module EncodeType {
  import opened Wrappers
  import opened ByteStrings
  import opened TypeGraph

  /** The text of one struct definition, if its members are well-formed. */
  type Formatter = (string, seq<Field>) -> Option<seq<Byte>>
  type Resolver = string -> bool

  // ---------- Name order ----------

  predicate Less(a: string, b: string) {
    b != "" && (a == "" || a[0] < b[0] || (a[0] == b[0] && Less(a[1..], b[1..])))
  }

  lemma {:induction false} LessTotal(a: string, b: string)
    ensures a == b || Less(a, b) || Less(b, a)
    ensures Less(a, b) ==> a != b && !Less(b, a)
  {
    if a != "" && b != "" {
      LessTotal(a[1..], b[1..]);
      assert a == [a[0]] + a[1..] && b == [b[0]] + b[1..];
    }
  }

  /** After `k` characters in common, `a` has ended or goes on with a smaller one. */
  predicate DiffersAt(a: string, b: string, k: int) {
    && 0 <= k < |b| && k <= |a|
    && a[..k] == b[..k]
    && (k == |a| || a[k] < b[k])
  }

  lemma {:induction false} LessAtDifference(a: string, b: string)
    ensures Less(a, b) <==> exists k: int :: DiffersAt(a, b, k)
  {
    if a == "" || b == "" || a[0] < b[0] {
      assert Less(a, b) ==> DiffersAt(a, b, 0);
    } else {
      LessAtDifference(a[1..], b[1..]);
      if Less(a, b) {
        var k :| DiffersAt(a[1..], b[1..], k);
        assert a[..k + 1] == [a[0]] + a[1..][..k] && b[..k + 1] == [b[0]] + b[1..][..k];
        assert DiffersAt(a, b, k + 1);
      }
      if k :| DiffersAt(a, b, k) {
        assert k > 0;
        assert a[..k][0] == b[..k][0];
        assert a[1..][..k - 1] == a[..k][1..] && b[1..][..k - 1] == b[..k][1..];
        assert DiffersAt(a[1..], b[1..], k - 1);
      }
    }
  }

  lemma {:induction false} LessTransitive(a: string, b: string, c: string)
    requires Less(a, b) && Less(b, c)
    ensures Less(a, c)
  {
    if a != "" && a[0] == b[0] == c[0] {
      LessTransitive(a[1..], b[1..], c[1..]);
    }
  }

  predicate Least(m: string, s: set<string>) {
    m in s && forall x | x in s && x != m :: Less(m, x)
  }

  lemma {:induction false} HasLeast(s: set<string>)
    requires s != {}
    ensures exists m :: Least(m, s)
    decreases |s|
  {
    var x :| x in s;
    if s == {x} {
      assert Least(x, s);
    } else {
      HasLeast(s - {x});
      var m :| Least(m, s - {x});
      LessTotal(m, x);
      if Less(x, m) {
        forall y | y in s && y != x
          ensures Less(x, y)
        {
          if y != m {
            LessTransitive(x, m, y);
          }
        }
        assert Least(x, s);
      } else {
        assert Least(m, s);
      }
    }
  }

  lemma LeastUnique(a: string, b: string, s: set<string>)
    requires Least(a, s) && Least(b, s)
    ensures a == b
  {
    LessTotal(a, b);
  }

  /** The names of a set from the least to the greatest: the order of a BTreeMap's keys. */
  function SortedNames(s: set<string>): (names: seq<string>)
    ensures forall x :: x in names <==> x in s
    ensures |names| == |s|
    decreases |s|
  {
    if s == {} then [] else
      HasLeast(s);
      assert forall a, b | Least(a, s) && Least(b, s) :: a == b by {
        forall a, b | Least(a, s) && Least(b, s)
          ensures a == b
        {
          LeastUnique(a, b, s);
        }
      }
      var m :| Least(m, s);
      [m] + SortedNames(s - {m})
  }

  lemma {:induction false} SortedNamesAscend(s: set<string>, i: nat, j: nat)
    requires i < j < |s|
    ensures Less(SortedNames(s)[i], SortedNames(s)[j])
    decreases |s|
  {
    var names := SortedNames(s);
    var m := names[0];
    var rest := SortedNames(s - {m});
    assert names == [m] + rest;
    if i == 0 {
      assert names[j] == rest[j - 1];
      assert rest[j - 1] in rest;
    } else {
      SortedNamesAscend(s - {m}, i - 1, j - 1);
    }
  }

  // ---------- What must be printed ----------

  /** The base types a struct refers to. */
  function References(types: Types, name: string): set<string> {
    if name !in types then {} else
      set i | 0 <= i < |types[name]| && types[name][i].ty.Some? :: Root(types[name][i].ty.value)
  }

  lemma ReferencesAreEdges(types: Types, a: string, b: string)
    ensures b in References(types, a) <==> Edge(types, a, b)
  {
    hide Root, IsBase;
    if a in types {
      forall i | 0 <= i < |types[a]| && types[a][i].ty.Some?
        ensures IsBase(b, types[a][i].ty.value) <==> b == Root(types[a][i].ty.value)
      {
        RootOnly(b, types[a][i].ty.value);
      }
    }
  }

  function AllNames(types: Types, primary: string): set<string> {
    {primary} + set a, b | a in types && b in References(types, a) :: b
  }

  ghost predicate IsReachableSet(types: Types, primary: string, s: set<string>) {
    forall x :: x in s <==> Reachable(types, primary, x)
  }

  /** A set with the primary type that every reference stays in holds all that can be reached. */
  lemma ClosedHoldsReachable(types: Types, primary: string, s: set<string>, w: seq<string>)
    requires primary in s
    requires forall a, b | a in s && Edge(types, a, b) :: b in s
    requires Walk(types, w) && w[0] == primary
    ensures w[|w| - 1] in s
    decreases |w|
  {
    if |w| > 1 {
      var front := w[..|w| - 1];
      SubWalk(types, w, 0, |w| - 1);
      assert w[0..|w| - 1] == front;
      ClosedHoldsReachable(types, primary, s, front);
      assert Edge(types, w[|w| - 2], w[|w| - 2 + 1]);
    }
  }

  lemma ReachNext(types: Types, a: string, b: string, c: string)
    requires Reachable(types, a, b) && Edge(types, b, c)
    ensures Reachable(types, a, c)
  {
    var w :| WalkTo(types, a, b, w);
    assert Walk(types, [b, c]);
    JoinWalks(types, w, [b, c]);
    assert WalkTo(types, a, c, w + [b, c][1..]);
  }

  lemma ReachSelf(types: Types, a: string)
    ensures Reachable(types, a, a)
  {
    assert WalkTo(types, a, a, [a]);
  }

  /** One name can be handled: a struct whose members all have a type and print, or a name that resolves. */
  predicate Sound(types: Types, format: Formatter, resolves: Resolver, name: string) {
    if name in types then
      && (forall i | 0 <= i < |types[name]| :: types[name][i].ty.Some?)
      && format(name, types[name]).Some?
    else resolves(name)
  }

  function Definition(types: Types, format: Formatter, name: string): seq<Byte> {
    if name in types && format(name, types[name]).Some? then format(name, types[name]).value else []
  }

  function Print(types: Types, format: Formatter, names: seq<string>): seq<Byte> {
    if names == [] then []
    else Print(types, format, names[..|names| - 1]) + Definition(types, format, names[|names| - 1])
  }

  /** The text EIP-712 asks for, given the set of reachable names. */
  function TypeText(types: Types, format: Formatter, primary: string, reached: set<string>): seq<Byte> {
    Definition(types, format, primary) +
    Print(types, format, SortedNames((set n | n in reached && n in types) - {primary}))
  }

  /** encodeType, when every reachable name can be handled. */
  ghost predicate EncodesType(types: Types, format: Formatter, resolves: Resolver, primary: string, text: seq<Byte>) {
    exists reached: set<string> ::
      && IsReachableSet(types, primary, reached)
      && primary in types
      && (forall n | n in reached :: Sound(types, format, resolves, n))
      && text == TypeText(types, format, primary, reached)
  }

  lemma EncodesTypeUnique(types: Types, format: Formatter, resolves: Resolver, primary: string,
                          a: seq<Byte>, b: seq<Byte>)
    requires EncodesType(types, format, resolves, primary, a)
    requires EncodesType(types, format, resolves, primary, b)
    ensures a == b
  {
    var s: set<string> :| IsReachableSet(types, primary, s) && a == TypeText(types, format, primary, s);
    var t: set<string> :| IsReachableSet(types, primary, t) && b == TypeText(types, format, primary, t);
    assert s == t;
  }

  // ---------- The worklist ----------

  /** Everything met so far is reachable, and what a seen struct refers to has been seen or waits. */
  ghost predicate Collected(types: Types, format: Formatter, resolves: Resolver, primary: string,
                            seen: set<string>, pending: seq<string>, definitions: map<string, seq<Byte>>)
  {
    && (forall n | n in pending || n in seen :: n in AllNames(types, primary) && Reachable(types, primary, n))
    && (primary in seen || primary in pending)
    && (forall a, b | a in seen && Edge(types, a, b) :: b in seen || b in pending)
    && (forall n | n in seen :: Sound(types, format, resolves, n))
    && definitions == map n | n in seen && n in types :: Definition(types, format, n)
  }

  lemma Start(types: Types, format: Formatter, resolves: Resolver, primary: string)
    ensures Collected(types, format, resolves, primary, {}, [primary], map[])
  {
    ReachSelf(types, primary);
  }

  lemma SkipSeen(types: Types, format: Formatter, resolves: Resolver, primary: string,
                 seen: set<string>, pending: seq<string>, definitions: map<string, seq<Byte>>, name: string)
    requires name in seen
    requires Collected(types, format, resolves, primary, seen, pending + [name], definitions)
    ensures Collected(types, format, resolves, primary, seen, pending, definitions)
  {
    hide Sound, AllNames, Reachable, Edge;
    assert forall n :: n in pending + [name] <==> n in pending || n == name;
  }

  lemma Visit(types: Types, format: Formatter, resolves: Resolver, primary: string, seen: set<string>,
              pending: seq<string>, definitions: map<string, seq<Byte>>, name: string, more: seq<string>)
    requires Collected(types, format, resolves, primary, seen, pending + [name], definitions)
    requires Sound(types, format, resolves, name)
    requires forall n :: n in more <==> Edge(types, name, n)
    ensures Collected(types, format, resolves, primary, seen + {name}, pending + more,
                      if name in types then definitions[name := Definition(types, format, name)] else definitions)
  {
    hide Sound, Edge, Definition, References;
    assert forall n :: n in pending + [name] <==> n in pending || n == name;
    assert forall n :: n in pending + more <==> n in pending || Edge(types, name, n);
    assert name in pending + [name];
    forall b
      ensures b in References(types, name) <==> Edge(types, name, b)
    {
      ReferencesAreEdges(types, name, b);
    }
    forall b | b in References(types, name)
      ensures b in AllNames(types, primary) && Reachable(types, primary, b)
    {
      ReferenceNamed(types, primary, name, b);
      ReachNext(types, primary, name, b);
    }
  }

  lemma ReferenceNamed(types: Types, primary: string, name: string, b: string)
    requires b in References(types, name)
    ensures b in AllNames(types, primary)
  {
  }

  /** The base types of the members, on top of what is pending. */
  method PushReferences(types: Types, name: string, pending: seq<string>) returns (r: Result<seq<string>, TypeError>)
    requires name in types
    ensures r.Ok? <==> forall i | 0 <= i < |types[name]| :: types[name][i].ty.Some?
    ensures r.Ok? ==> pending <= r.value
    ensures r.Ok? ==> forall n :: n in r.value[|pending|..] <==> Edge(types, name, n)
  {
    var fields := types[name];
    var more: seq<string> := [];
    for i := 0 to |fields|
      invariant |more| == i
      invariant forall j | 0 <= j < i :: fields[j].ty.Some? && more[j] == Root(fields[j].ty.value)
    {
      if fields[i].ty.None? {
        return Err(InvalidType);
      }
      more := more + [Root(fields[i].ty.value)];
    }
    assert (pending + more)[|pending|..] == more;
    forall n
      ensures n in References(types, name) <==> Edge(types, name, n)
    {
      ReferencesAreEdges(types, name, n);
    }
    return Ok(pending + more);
  }

  method RecursiveEncodeType(types: Types, format: Formatter, resolves: Resolver, primary: string)
      returns (r: Result<seq<Byte>, TypeError>)
    ensures r.Ok? ==> EncodesType(types, format, resolves, primary, r.value)
    ensures r.Err? ==> forall text :: !EncodesType(types, format, resolves, primary, text)
  {
    hide Collected, EncodesType, Edge, Reachable, AllNames, References, SortedNames;
    var pending := [primary];
    var definitions: map<string, seq<Byte>> := map[];
    var seen: set<string> := {};
    ghost var universe := AllNames(types, primary);
    Start(types, format, resolves, primary);
    while pending != []
      invariant Collected(types, format, resolves, primary, seen, pending, definitions)
      decreases |universe - seen|, |pending|
    {
      var name := pending[|pending| - 1];
      assert pending == pending[..|pending| - 1] + [name];
      PendingReachable(types, format, resolves, primary, seen, pending, definitions, name);
      pending := pending[..|pending| - 1];
      if name in seen {
        SkipSeen(types, format, resolves, primary, seen, pending, definitions, name);
        continue;
      }
      ghost var before := pending;
      if name in types {
        var pushed := PushReferences(types, name, pending);
        if pushed.Err? {
          NotSound(types, format, resolves, primary, name);
          return Err(pushed.error);
        }
        if format(name, types[name]).None? {
          NotSound(types, format, resolves, primary, name);
          return Err(InvalidDefinition);
        }
        pending := pushed.value;
        Visit(types, format, resolves, primary, seen, before, definitions, name, pending[|before|..]);
        assert before + pending[|before|..] == pending;
        definitions := definitions[name := format(name, types[name]).value];
      } else if resolves(name) {
        NoEdges(types, name);
        Visit(types, format, resolves, primary, seen, before, definitions, name, []);
        assert before + [] == pending;
      } else {
        NotSound(types, format, resolves, primary, name);
        return Err(Unresolved);
      }
      assert universe - (seen + {name}) == universe - seen - {name};
      seen := seen + {name};
    }
    r := PrintDefinitions(types, format, resolves, primary, seen, definitions);
  }

  lemma NoEdges(types: Types, name: string)
    requires name !in types
    ensures forall n :: !Edge(types, name, n)
  {
  }

  lemma PendingReachable(types: Types, format: Formatter, resolves: Resolver, primary: string, seen: set<string>,
                         pending: seq<string>, definitions: map<string, seq<Byte>>, name: string)
    requires Collected(types, format, resolves, primary, seen, pending, definitions)
    requires name in pending
    ensures name in AllNames(types, primary) && Reachable(types, primary, name)
  {
  }

  lemma Finished(types: Types, format: Formatter, resolves: Resolver, primary: string,
                 seen: set<string>, definitions: map<string, seq<Byte>>)
    requires Collected(types, format, resolves, primary, seen, [], definitions)
    ensures definitions.Keys == set n | n in seen && n in types
    ensures forall n | n in definitions :: definitions[n] == Definition(types, format, n)
    ensures primary in definitions <==> primary in types
    ensures primary in types ==>
              EncodesType(types, format, resolves, primary, TypeText(types, format, primary, seen))
    ensures primary !in types ==> forall text :: !EncodesType(types, format, resolves, primary, text)
  {
    hide Edge, Reachable, Sound, AllNames, TypeText, Definition;
    SeenIsReachable(types, primary, seen);
  }

  /** The primary definition, then the others in name order. */
  method PrintDefinitions(types: Types, format: Formatter, resolves: Resolver, primary: string,
                          ghost seen: set<string>, collected: map<string, seq<Byte>>)
      returns (r: Result<seq<Byte>, TypeError>)
    requires Collected(types, format, resolves, primary, seen, [], collected)
    ensures r.Ok? ==> EncodesType(types, format, resolves, primary, r.value)
    ensures r.Err? ==> forall text :: !EncodesType(types, format, resolves, primary, text)
  {
    hide Collected, EncodesType, SortedNames, Definition;
    Finished(types, format, resolves, primary, seen, collected);
    if primary !in collected {
      return Err(ExpectedStruct);
    }
    var encoded := collected[primary];
    var definitions := collected - {primary};
    var names := SortedNames(definitions.Keys);
    for i := 0 to |names|
      invariant encoded == Definition(types, format, primary) + Print(types, format, names[..i])
    {
      assert names[i] in names;
      assert names[..i + 1][..i] == names[..i];
      encoded := encoded + definitions[names[i]];
    }
    assert names[..|names|] == names;
    assert definitions.Keys == (set n | n in seen && n in types) - {primary};
    assert encoded == TypeText(types, format, primary, seen);
    return Ok(encoded);
  }

  lemma NotSound(types: Types, format: Formatter, resolves: Resolver, primary: string, name: string)
    requires Reachable(types, primary, name)
    requires !Sound(types, format, resolves, name)
    ensures forall text :: !EncodesType(types, format, resolves, primary, text)
  {
  }

  lemma SeenIsReachable(types: Types, primary: string, seen: set<string>)
    requires primary in seen
    requires forall a, b | a in seen && Edge(types, a, b) :: b in seen
    requires forall n | n in seen :: Reachable(types, primary, n)
    ensures IsReachableSet(types, primary, seen)
  {
    forall x | Reachable(types, primary, x)
      ensures x in seen
    {
      var w :| WalkTo(types, primary, x, w);
      ClosedHoldsReachable(types, primary, seen, w);
    }
  }
}
