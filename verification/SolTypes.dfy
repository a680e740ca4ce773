/**
 Rendering Solidity types two ways: straight to canonical ABI text, with a depth limit and each
 struct's own owner, and through the component tree that is handed to callers, without a limit and
 with the caller's owner.
 */
module SolTypes {
  import opened ArraySuffix
  import opened Wrappers

  datatype SolField = SolField(name: string, ty: string)
  datatype SolStruct = SolStruct(name: string, fields: seq<SolField>)
  datatype Registry = Registry(structs: map<string, SolStruct>, enums: set<string>, contracts: set<string>)

  datatype Component = Component(name: string, ty: string, components: seq<Component>)

  const MAX_TYPE_RECURSION_DEPTH: nat := 10

  // ---------- Name resolution ----------

  function OwnerFromCanonical(name: string): string {
    var dot := LastIndex(name, '.');
    if dot >= 0 then name[..dot] else ""
  }

  function ResolveStruct(base: string, owner: string, registry: Registry): Option<SolStruct> {
    var qualified := owner + "." + base;
    if owner != "" && qualified in registry.structs then Some(registry.structs[qualified])
    else if base in registry.structs then Some(registry.structs[base])
    else None
  }

  predicate ResolveEnum(base: string, owner: string, registry: Registry) {
    (owner != "" && owner + "." + base in registry.enums) || base in registry.enums
  }

  /** What a type that is not a struct is rendered as. */
  function Elementary(base: string, owner: string, registry: Registry): string {
    if base in registry.contracts then "address"
    else if ResolveEnum(base, owner, registry) then "uint8"
    else base
  }

  /** Every name means the same to every owner. */
  ghost predicate ResolvesAlike(registry: Registry) {
    StructsAlike(registry) && EnumsAlike(registry)
  }

  ghost predicate StructsAlike(registry: Registry) {
    forall base, owner :: ResolveStruct(base, owner, registry) == ResolveStruct(base, "", registry)
  }

  ghost predicate EnumsAlike(registry: Registry) {
    forall base, owner :: ResolveEnum(base, owner, registry) == ResolveEnum(base, "", registry)
  }

  lemma SameForAll(base: string, owner: string, other: string, registry: Registry)
    requires ResolvesAlike(registry)
    ensures ResolveStruct(base, owner, registry) == ResolveStruct(base, other, registry)
    ensures Elementary(base, owner, registry) == Elementary(base, other, registry)
  {
    hide ResolveStruct, ResolveEnum;
    assert ResolveStruct(base, other, registry) == ResolveStruct(base, "", registry);
    assert ResolveEnum(base, owner, registry) == ResolveEnum(base, "", registry) == ResolveEnum(base, other, registry);
  }

  /** Every member type of every struct can be split. */
  predicate Spelled(registry: Registry) {
    forall name | name in registry.structs :: SpelledFields(registry.structs[name].fields)
  }

  predicate SpelledFields(fields: seq<SolField>) {
    forall i | 0 <= i < |fields| :: SpelledType(fields[i].ty)
  }

  predicate SpelledType(ty: string) {
    !Uncut(Split(ty).0)
  }

  // ---------- Straight to text ----------

  function Join(parts: seq<string>): string {
    if parts == [] then "" else if |parts| == 1 then parts[0] else parts[0] + "," + Join(parts[1..])
  }

  function TypeToCanonical(ty: string, owner: string, registry: Registry): string
    requires Spelled(registry) && SpelledType(ty)
  {
    TypeToCanonicalInner(ty, owner, registry, 0)
  }

  function TypeToCanonicalInner(ty: string, owner: string, registry: Registry, depth: nat): string
    requires Spelled(registry) && SpelledType(ty)
    decreases if depth > MAX_TYPE_RECURSION_DEPTH then 0 else MAX_TYPE_RECURSION_DEPTH + 1 - depth, 0
  {
    if depth > MAX_TYPE_RECURSION_DEPTH then
      ty
    else
      var (base, suffix) := Split(ty);
      match ResolveStruct(base, owner, registry)
      case Some(def) =>
        "(" + Join(CanonicalFields(def.fields, OwnerFromCanonical(def.name), registry, depth + 1)) + ")" + suffix
      case None => Elementary(base, owner, registry) + suffix
  }

  function CanonicalFields(fields: seq<SolField>, owner: string, registry: Registry, depth: nat): (parts: seq<string>)
    requires Spelled(registry) && SpelledFields(fields)
    ensures |parts| == |fields|
    decreases if depth > MAX_TYPE_RECURSION_DEPTH then 0 else MAX_TYPE_RECURSION_DEPTH + 1 - depth, 1 + |fields|
  {
    if fields == [] then []
    else
      [TypeToCanonicalInner(fields[0].ty, owner, registry, depth)] +
      CanonicalFields(fields[1..], owner, registry, depth)
  }

  // ---------- What the text says ----------

  /** Parts are joined by a comma between each and the next. */
  lemma {:induction false} JoinNext(parts: seq<string>, part: string)
    ensures Join([part]) == part
    ensures parts != [] ==> Join(parts + [part]) == Join(parts) + "," + part
  {
    if |parts| > 1 {
      JoinNext(parts[1..], part);
      assert (parts + [part])[1..] == parts[1..] + [part];
      assert parts[0] + "," + (Join(parts[1..]) + "," + part) == parts[0] + "," + Join(parts[1..]) + "," + part;
    } else if |parts| == 1 {
      assert (parts + [part])[1..] == [part];
    }
  }

  /** A contract is an address, an enum is a uint8, and any other type that is no struct stands for itself. */
  lemma PlainText(ty: string, owner: string, registry: Registry)
    requires Spelled(registry) && SpelledType(ty)
    requires ResolveStruct(Split(ty).0, owner, registry).None?
    ensures var (base, suffix) := Split(ty);
            TypeToCanonical(ty, owner, registry) ==
            (if base in registry.contracts then "address"
             else if base in registry.enums || (owner != "" && owner + "." + base in registry.enums) then "uint8"
             else base) + suffix
  {
  }

  /** A struct is the texts of its members between parentheses, each as seen from the struct's own contract. */
  lemma StructText(ty: string, owner: string, registry: Registry)
    requires Spelled(registry) && SpelledType(ty)
    requires ResolveStruct(Split(ty).0, owner, registry).Some?
    ensures var def := ResolveStruct(Split(ty).0, owner, registry).value;
            exists parts: seq<string> ::
              && |parts| == |def.fields|
              && TypeToCanonical(ty, owner, registry) == "(" + Join(parts) + ")" + Split(ty).1
              && forall i | 0 <= i < |parts| ::
                   parts[i] == TypeToCanonicalInner(def.fields[i].ty, OwnerFromCanonical(def.name), registry, 1)
  {
    hide Split, Join, OwnerFromCanonical;
    var def := ResolveStruct(Split(ty).0, owner, registry).value;
    var parts := CanonicalFields(def.fields, OwnerFromCanonical(def.name), registry, 1);
    forall i | 0 <= i < |parts|
      ensures parts[i] == TypeToCanonicalInner(def.fields[i].ty, OwnerFromCanonical(def.name), registry, 1)
    {
      FieldText(def.fields, OwnerFromCanonical(def.name), registry, 1, i);
    }
    assert |parts| == |def.fields|;
    assert TypeToCanonical(ty, owner, registry) == "(" + Join(parts) + ")" + Split(ty).1;
  }

  lemma {:induction false} FieldText(fields: seq<SolField>, owner: string, registry: Registry, depth: nat, i: nat)
    requires Spelled(registry) && SpelledFields(fields)
    requires i < |fields|
    ensures CanonicalFields(fields, owner, registry, depth)[i] ==
            TypeToCanonicalInner(fields[i].ty, owner, registry, depth)
  {
    hide TypeToCanonicalInner;
    if i > 0 {
      FieldText(fields[1..], owner, registry, depth, i - 1);
    }
  }

  /** The owner of a canonical name is what is before its last dot. */
  lemma OwnerOfQualified(owner: string, short: string)
    requires '.' !in short
    ensures OwnerFromCanonical(owner + "." + short) == owner
    ensures OwnerFromCanonical(short) == ""
  {
    var name := owner + "." + short;
    assert forall k | |owner| < k < |name| :: name[k] == short[k - |owner| - 1];
    LastIndexIs(name, '.', |owner|);
    assert name[..|owner|] == owner;
  }

  // ---------- Through the component tree ----------

  function ResolveTypeInfo(ty: string, owner: string, registry: Registry): (string, seq<SolField>)
    requires SpelledType(ty)
  {
    var (base, suffix) := Split(ty);
    match ResolveStruct(base, owner, registry)
    case Some(def) => ("tuple" + suffix, def.fields)
    case None => (Elementary(base, owner, registry) + suffix, [])
  }

  /** At most `n` structs below each other, all names taken from one owner. */
  predicate Unfolds(ty: string, owner: string, registry: Registry, n: nat)
    decreases n, 0
  {
    match ResolveStruct(Split(ty).0, owner, registry)
    case Some(def) => n > 0 && UnfoldFields(def.fields, owner, registry, n - 1)
    case None => true
  }

  predicate UnfoldFields(fields: seq<SolField>, owner: string, registry: Registry, n: nat)
    decreases n, 1
  {
    forall i | 0 <= i < |fields| :: Unfolds(fields[i].ty, owner, registry, n)
  }

  /** `n` bounds the nesting, without which the recursion does not end. */
  function EncodeSolField(field: SolField, owner: string, registry: Registry, ghost n: nat): Component
    requires Spelled(registry) && SpelledType(field.ty)
    requires Unfolds(field.ty, owner, registry, n)
    decreases n, 0
  {
    var (ty, fields) := ResolveTypeInfo(field.ty, owner, registry);
    if fields == [] then Component(field.name, ty, [])
    else Component(field.name, ty, EncodeSolFields(fields, owner, registry, n - 1))
  }

  function EncodeSolFields(fields: seq<SolField>, owner: string, registry: Registry, ghost n: nat)
      : (components: seq<Component>)
    requires Spelled(registry) && SpelledFields(fields)
    requires UnfoldFields(fields, owner, registry, n)
    ensures |components| == |fields|
    decreases n, 1 + |fields|
  {
    if fields == [] then []
    else [EncodeSolField(fields[0], owner, registry, n)] + EncodeSolFields(fields[1..], owner, registry, n)
  }

  function CanonicalType(p: Component): string {
    if p.components == [] then
      p.ty
    else
      "(" + Join(CanonicalTypes(p.components)) + ")" + (if "tuple" <= p.ty then p.ty[|"tuple"|..] else "")
  }

  function CanonicalTypes(components: seq<Component>): (parts: seq<string>)
    ensures |parts| == |components|
  {
    if components == [] then [] else [CanonicalType(components[0])] + CanonicalTypes(components[1..])
  }

  function BuildReturnType(outputs: seq<Component>): string {
    if outputs == [] then "()" else "(" + Join(CanonicalTypes(outputs)) + ")"
  }

  // ---------- Agreement ----------

  /** With `n` more levels to expand, nothing that needs expanding is left over. */
  predicate Settles(ty: string, owner: string, registry: Registry, n: nat)
    decreases n, 0
  {
    var base := Split(ty).0;
    match ResolveStruct(base, owner, registry)
    case Some(def) => n > 0 && SettleFields(def.fields, OwnerFromCanonical(def.name), registry, n - 1)
    case None => n > 0 || Elementary(base, owner, registry) == base
  }

  predicate SettleFields(fields: seq<SolField>, owner: string, registry: Registry, n: nat)
    decreases n, 1
  {
    forall i | 0 <= i < |fields| :: Settles(fields[i].ty, owner, registry, n)
  }

  /** Every name met in the expansion of a type means the same to the caller as to the contract it stands in. */
  predicate MeetsAlike(ty: string, owner: string, caller: string, registry: Registry, n: nat)
    decreases n, 0
  {
    var base := Split(ty).0;
    && ResolveStruct(base, owner, registry) == ResolveStruct(base, caller, registry)
    && match ResolveStruct(base, owner, registry)
       case Some(def) => n > 0 ==> MeetFieldsAlike(def.fields, OwnerFromCanonical(def.name), caller, registry, n - 1)
       case None => Elementary(base, owner, registry) == Elementary(base, caller, registry)
  }

  predicate MeetFieldsAlike(fields: seq<SolField>, owner: string, caller: string, registry: Registry, n: nat)
    decreases n, 1
  {
    forall i | 0 <= i < |fields| :: MeetsAlike(fields[i].ty, owner, caller, registry, n)
  }

  lemma {:induction false} AlikeEverywhere(ty: string, owner: string, caller: string, registry: Registry, n: nat)
    requires ResolvesAlike(registry)
    ensures MeetsAlike(ty, owner, caller, registry, n)
    decreases n
  {
    SameForAll(Split(ty).0, owner, caller, registry);
    match ResolveStruct(Split(ty).0, owner, registry)
    case Some(def) =>
      if n > 0 {
        forall i | 0 <= i < |def.fields|
          ensures MeetsAlike(def.fields[i].ty, OwnerFromCanonical(def.name), caller, registry, n - 1)
        {
          AlikeEverywhere(def.fields[i].ty, OwnerFromCanonical(def.name), caller, registry, n - 1);
        }
      }
    case None =>
  }

  /** The text of a type with every name looked up from the caller, and no limit on the depth. */
  function CallerText(ty: string, caller: string, registry: Registry, n: nat): string
    requires Unfolds(ty, caller, registry, n)
    decreases n, 0
  {
    var (base, suffix) := Split(ty);
    match ResolveStruct(base, caller, registry)
    case Some(def) => "(" + Join(CallerTexts(def.fields, caller, registry, n - 1)) + ")" + suffix
    case None => Elementary(base, caller, registry) + suffix
  }

  function CallerTexts(fields: seq<SolField>, caller: string, registry: Registry, n: nat): (parts: seq<string>)
    requires UnfoldFields(fields, caller, registry, n)
    ensures |parts| == |fields|
    decreases n, 1 + |fields|
  {
    if fields == [] then []
    else [CallerText(fields[0].ty, caller, registry, n)] + CallerTexts(fields[1..], caller, registry, n)
  }

  /** The structs without members in that expansion. */
  function Hollows(ty: string, caller: string, registry: Registry, n: nat): nat
    requires Unfolds(ty, caller, registry, n)
    decreases n, 0
  {
    match ResolveStruct(Split(ty).0, caller, registry)
    case Some(def) => if def.fields == [] then 1 else HollowFields(def.fields, caller, registry, n - 1)
    case None => 0
  }

  function HollowFields(fields: seq<SolField>, caller: string, registry: Registry, n: nat): nat
    requires UnfoldFields(fields, caller, registry, n)
    decreases n, 1 + |fields|
  {
    if fields == [] then 0
    else Hollows(fields[0].ty, caller, registry, n) + HollowFields(fields[1..], caller, registry, n)
  }

  /** The depth at which a type is met does not matter as long as it settles from there. */
  lemma {:induction false} DepthIrrelevant(ty: string, owner: string, registry: Registry, n: nat, depth: nat,
      other: nat)
    requires Spelled(registry) && SpelledType(ty)
    requires depth + n == MAX_TYPE_RECURSION_DEPTH + 1 && other <= depth
    requires Settles(ty, owner, registry, n)
    ensures TypeToCanonicalInner(ty, owner, registry, depth) == TypeToCanonicalInner(ty, owner, registry, other)
    decreases n, 0
  {
    match ResolveStruct(Split(ty).0, owner, registry)
    case Some(def) => DepthIrrelevantFields(def.fields, OwnerFromCanonical(def.name), registry, n - 1, depth + 1,
        other + 1);
    case None =>
  }

  lemma {:induction false} DepthIrrelevantFields(fields: seq<SolField>, owner: string, registry: Registry, n: nat,
      depth: nat, other: nat)
    requires Spelled(registry) && SpelledFields(fields)
    requires depth + n == MAX_TYPE_RECURSION_DEPTH + 1 && other <= depth
    requires SettleFields(fields, owner, registry, n)
    ensures CanonicalFields(fields, owner, registry, depth) == CanonicalFields(fields, owner, registry, other)
    decreases n, 1 + |fields|
  {
    if fields != [] {
      DepthIrrelevant(fields[0].ty, owner, registry, n, depth, other);
      DepthIrrelevantFields(fields[1..], owner, registry, n, depth, other);
    }
  }

  lemma {:induction false} SettledUnfolds(ty: string, owner: string, caller: string, registry: Registry, n: nat)
    requires Settles(ty, owner, registry, n) && MeetsAlike(ty, owner, caller, registry, n)
    ensures Unfolds(ty, caller, registry, n)
    decreases n
  {
    match ResolveStruct(Split(ty).0, owner, registry)
    case Some(def) =>
      forall i | 0 <= i < |def.fields|
        ensures Unfolds(def.fields[i].ty, caller, registry, n - 1)
      {
        SettledUnfolds(def.fields[i].ty, OwnerFromCanonical(def.name), caller, registry, n - 1);
      }
    case None =>
  }

  lemma TreeOfStruct(field: SolField, caller: string, registry: Registry, n: nat, def: SolStruct)
    requires Spelled(registry) && SpelledType(field.ty)
    requires ResolveStruct(Split(field.ty).0, caller, registry) == Some(def)
    requires Unfolds(field.ty, caller, registry, n)
    ensures SpelledFields(def.fields)
    ensures CanonicalType(EncodeSolField(field, caller, registry, n)) ==
            if def.fields == [] then "tuple" + Split(field.ty).1
            else
              "(" + Join(CanonicalTypes(EncodeSolFields(def.fields, caller, registry, n - 1))) + ")" +
              Split(field.ty).1
  {
    hide Split, Join, CanonicalTypes, EncodeSolFields, OwnerFromCanonical, SpelledType, UnfoldFields;
    var ty := "tuple" + Split(field.ty).1;
    assert ty[|"tuple"|..] == Split(field.ty).1;
  }

  lemma EmptyText(ty: string, caller: string, registry: Registry, n: nat)
    requires Unfolds(ty, caller, registry, n)
    requires var def := ResolveStruct(Split(ty).0, caller, registry); def.Some? && def.value.fields == []
    ensures CallerText(ty, caller, registry, n) == "()" + Split(ty).1 && Hollows(ty, caller, registry, n) == 1
  {
    hide Split, ResolveStruct;
  }

  lemma ElementaryTree(field: SolField, caller: string, registry: Registry, n: nat)
    requires Spelled(registry) && SpelledType(field.ty)
    requires ResolveStruct(Split(field.ty).0, caller, registry) == None
    ensures Unfolds(field.ty, caller, registry, n) && Hollows(field.ty, caller, registry, n) == 0
    ensures CanonicalType(EncodeSolField(field, caller, registry, n)) == CallerText(field.ty, caller, registry, n)
  {
    hide Split, ResolveStruct, Elementary;
  }

  /**
   For every type whose component tree ends, the tree renders as the text with every name looked up
   from the caller, but for three more characters for every struct without members: one writes `()`
   for it and the other `tuple`. The texts are the same exactly when there is none.
   */
  lemma {:induction false} TreeCompares(field: SolField, caller: string, registry: Registry, n: nat)
    requires Spelled(registry) && SpelledType(field.ty)
    requires Unfolds(field.ty, caller, registry, n)
    ensures var text := CallerText(field.ty, caller, registry, n);
            var tree := CanonicalType(EncodeSolField(field, caller, registry, n));
            && |tree| == |text| + 3 * Hollows(field.ty, caller, registry, n)
            && (Hollows(field.ty, caller, registry, n) == 0 <==> tree == text)
    decreases n, 0
  {
    hide Split, ResolveStruct, Elementary, SpelledType, CanonicalType, EncodeSolField, Join;
    match ResolveStruct(Split(field.ty).0, caller, registry)
    case Some(def) =>
      TreeOfStruct(field, caller, registry, n, def);
      if def.fields == [] {
        EmptyText(field.ty, caller, registry, n);
      } else {
        FieldTreesCompare(def.fields, caller, registry, n - 1);
      }
    case None => ElementaryTree(field, caller, registry, n);
  }

  lemma {:induction false} FieldTreesCompare(fields: seq<SolField>, caller: string, registry: Registry, n: nat)
    requires Spelled(registry) && SpelledFields(fields)
    requires UnfoldFields(fields, caller, registry, n)
    ensures var texts := CallerTexts(fields, caller, registry, n);
            var tree := CanonicalTypes(EncodeSolFields(fields, caller, registry, n));
            && |Join(tree)| == |Join(texts)| + 3 * HollowFields(fields, caller, registry, n)
            && (HollowFields(fields, caller, registry, n) == 0 ==> tree == texts)
    decreases n, 1 + |fields|
  {
    if fields != [] {
      TreeCompares(fields[0], caller, registry, n);
      FieldTreesCompare(fields[1..], caller, registry, n);
    }
  }

  /** Where the names met mean the same to the caller, and the expansion settles, that text is the canonical one. */
  lemma {:induction false} TextFromCaller(ty: string, owner: string, caller: string, registry: Registry,
                                          n: nat, depth: nat)
    requires Spelled(registry) && SpelledType(ty)
    requires depth + n == MAX_TYPE_RECURSION_DEPTH + 1
    requires Settles(ty, owner, registry, n) && MeetsAlike(ty, owner, caller, registry, n)
    requires Unfolds(ty, caller, registry, n)
    ensures TypeToCanonicalInner(ty, owner, registry, depth) == CallerText(ty, caller, registry, n)
    decreases n, 0
  {
    hide Split, ResolveStruct, Elementary, SpelledType, Join, OwnerFromCanonical;
    match ResolveStruct(Split(ty).0, owner, registry)
    case Some(def) =>
      StructSpelled(Split(ty).0, owner, registry);
      TextsFromCaller(def.fields, OwnerFromCanonical(def.name), caller, registry, n - 1, depth + 1);
    case None => ElementaryText(ty, owner, registry, n, depth);
  }

  lemma StructSpelled(base: string, owner: string, registry: Registry)
    requires Spelled(registry) && ResolveStruct(base, owner, registry).Some?
    ensures SpelledFields(ResolveStruct(base, owner, registry).value.fields)
  {
  }

  lemma ElementaryText(ty: string, owner: string, registry: Registry, n: nat, depth: nat)
    requires Spelled(registry) && SpelledType(ty)
    requires depth + n == MAX_TYPE_RECURSION_DEPTH + 1
    requires ResolveStruct(Split(ty).0, owner, registry) == None && Settles(ty, owner, registry, n)
    ensures TypeToCanonicalInner(ty, owner, registry, depth) == Elementary(Split(ty).0, owner, registry) + Split(ty).1
  {
    hide Split, ResolveStruct, Elementary;
  }

  lemma {:induction false} TextsFromCaller(fields: seq<SolField>, owner: string, caller: string, registry: Registry,
                                           n: nat, depth: nat)
    requires Spelled(registry) && SpelledFields(fields)
    requires depth + n == MAX_TYPE_RECURSION_DEPTH + 1
    requires SettleFields(fields, owner, registry, n) && MeetFieldsAlike(fields, owner, caller, registry, n)
    requires UnfoldFields(fields, caller, registry, n)
    ensures CanonicalFields(fields, owner, registry, depth) == CallerTexts(fields, caller, registry, n)
    decreases n, 1 + |fields|
  {
    if fields != [] {
      TextFromCaller(fields[0].ty, owner, caller, registry, n, depth);
      TextsFromCaller(fields[1..], owner, caller, registry, n, depth);
    }
  }

  /**
   The component tree of a type without empty structs renders as the canonical text exactly if that is
   also the text with every name looked up from the caller.
   */
  lemma OwnersCompare(field: SolField, caller: string, registry: Registry, n: nat)
    requires Spelled(registry) && SpelledType(field.ty)
    requires Unfolds(field.ty, caller, registry, n) && Hollows(field.ty, caller, registry, n) == 0
    ensures var straight := TypeToCanonical(field.ty, caller, registry);
            CanonicalType(EncodeSolField(field, caller, registry, n)) == straight <==>
            CallerText(field.ty, caller, registry, n) == straight
  {
    hide CanonicalType, EncodeSolField, CallerText, TypeToCanonical, Hollows;
    TreeCompares(field, caller, registry, n);
  }

  /** If the names met mean the same to the caller, both renderings agree exactly when no struct lacks members. */
  lemma CanonicalAgrees(field: SolField, owner: string, registry: Registry)
    requires Spelled(registry) && SpelledType(field.ty)
    requires Settles(field.ty, owner, registry, MAX_TYPE_RECURSION_DEPTH + 1)
    requires MeetsAlike(field.ty, owner, owner, registry, MAX_TYPE_RECURSION_DEPTH + 1)
    ensures Unfolds(field.ty, owner, registry, MAX_TYPE_RECURSION_DEPTH + 1)
    ensures CanonicalType(EncodeSolField(field, owner, registry, MAX_TYPE_RECURSION_DEPTH + 1)) ==
            TypeToCanonical(field.ty, owner, registry) <==>
            Hollows(field.ty, owner, registry, MAX_TYPE_RECURSION_DEPTH + 1) == 0
  {
    SettledUnfolds(field.ty, owner, owner, registry, MAX_TYPE_RECURSION_DEPTH + 1);
    TextFromCaller(field.ty, owner, owner, registry, MAX_TYPE_RECURSION_DEPTH + 1, 0);
    TreeCompares(field, owner, registry, MAX_TYPE_RECURSION_DEPTH + 1);
  }

  /** The return type in a signature is the one rebuilt from the component trees of the outputs. */
  lemma ReturnTypesAgree(outputs: seq<SolField>, owner: string, registry: Registry)
    requires Spelled(registry) && SpelledFields(outputs)
    requires SettleFields(outputs, owner, registry, MAX_TYPE_RECURSION_DEPTH + 1)
    requires MeetFieldsAlike(outputs, owner, owner, registry, MAX_TYPE_RECURSION_DEPTH + 1)
    ensures UnfoldFields(outputs, owner, registry, MAX_TYPE_RECURSION_DEPTH + 1)
    ensures HollowFields(outputs, owner, registry, MAX_TYPE_RECURSION_DEPTH + 1) == 0 ==>
            BuildReturnType(EncodeSolFields(outputs, owner, registry, MAX_TYPE_RECURSION_DEPTH + 1)) ==
            "(" + Join(CanonicalFields(outputs, owner, registry, 0)) + ")"
  {
    hide Settles, Unfolds, MeetsAlike;
    var n := MAX_TYPE_RECURSION_DEPTH + 1;
    forall i | 0 <= i < |outputs|
      ensures Unfolds(outputs[i].ty, owner, registry, n)
    {
      SettledUnfolds(outputs[i].ty, owner, owner, registry, n);
    }
    TextsFromCaller(outputs, owner, owner, registry, n, 0);
    FieldTreesCompare(outputs, owner, registry, n);
  }

  // ---------- Structs with one member ----------

  lemma OneMember(ty: string, owner: string, registry: Registry, depth: nat, def: SolStruct)
    requires Spelled(registry) && SpelledType(ty)
    requires ResolveStruct(Split(ty).0, owner, registry) == Some(def) && |def.fields| == 1
    requires depth <= MAX_TYPE_RECURSION_DEPTH
    ensures SpelledType(def.fields[0].ty)
    ensures TypeToCanonicalInner(ty, owner, registry, depth) ==
            "(" + TypeToCanonicalInner(def.fields[0].ty, OwnerFromCanonical(def.name), registry, depth + 1) + ")" +
                Split(ty).1
  {
    hide Split;
    assert CanonicalFields(def.fields, OwnerFromCanonical(def.name), registry, depth + 1) ==
           [TypeToCanonicalInner(def.fields[0].ty, OwnerFromCanonical(def.name), registry, depth + 1)];
  }

  lemma OneMemberTree(field: SolField, owner: string, registry: Registry, n: nat, def: SolStruct)
    requires Spelled(registry) && SpelledType(field.ty)
    requires ResolveStruct(Split(field.ty).0, owner, registry) == Some(def) && |def.fields| == 1
    requires n > 0 && Unfolds(def.fields[0].ty, owner, registry, n - 1)
    ensures SpelledType(def.fields[0].ty) && Unfolds(field.ty, owner, registry, n)
    ensures CanonicalType(EncodeSolField(field, owner, registry, n)) ==
            "(" + CanonicalType(EncodeSolField(def.fields[0], owner, registry, n - 1)) + ")" + Split(field.ty).1
  {
    hide Split, CanonicalType, EncodeSolField;
    assert EncodeSolFields(def.fields, owner, registry, n - 1) ==
        [EncodeSolField(def.fields[0], owner, registry, n - 1)];
    TreeOfStruct(field, owner, registry, n, def);
  }

  function Wrapped(ty: string, n: nat): string {
    if n == 0 then ty else "(" + Wrapped(ty, n - 1) + ")" + Split(ty).1
  }

  /** A struct whose one member is of its own type, or an array of it, is written out down to the depth limit. */
  lemma {:induction false} SelfReference(ty: string, owner: string, registry: Registry, depth: nat)
    requires Spelled(registry) && SpelledType(ty)
    requires var def := ResolveStruct(Split(ty).0, owner, registry);
             && def.Some?
             && |def.value.fields| == 1
             && def.value.fields[0].ty == ty
             && OwnerFromCanonical(def.value.name) == owner
    requires depth <= MAX_TYPE_RECURSION_DEPTH + 1
    ensures TypeToCanonicalInner(ty, owner, registry, depth) == Wrapped(ty, 11 - depth)
    decreases MAX_TYPE_RECURSION_DEPTH + 1 - depth
  {
    hide Split;
    if depth <= MAX_TYPE_RECURSION_DEPTH {
      SelfReference(ty, owner, registry, depth + 1);
      OneMember(ty, owner, registry, depth, ResolveStruct(Split(ty).0, owner, registry).value);
    }
  }
}
