/**
 The lookup tables built from the declarations of a Solidity source, and when they make every name
 mean the same to every contract.
 */
module SolRegistry {
  import opened ArraySuffix
  import opened SolTypes
  import opened Wrappers

  datatype PendingStruct = PendingStruct(canonicalName: string, shortName: string, fields: seq<SolField>)
  datatype PendingEnum = PendingEnum(canonicalName: string, shortName: string)

  function QualifyUserType(owner: string, short: string): string {
    if owner != "" then owner + "." + short else short
  }

  function Defined(pending: PendingStruct): SolStruct {
    SolStruct(pending.canonicalName, pending.fields)
  }

  function StructNames(structs: seq<PendingStruct>): (names: seq<string>)
    ensures |names| == |structs| && forall i | 0 <= i < |names| :: names[i] == structs[i].shortName
  {
    seq(|structs|, i requires 0 <= i < |structs| => structs[i].shortName)
  }

  function EnumNames(enums: seq<PendingEnum>): (names: seq<string>)
    ensures |names| == |enums| && forall i | 0 <= i < |names| :: names[i] == enums[i].shortName
  {
    seq(|enums|, i requires 0 <= i < |enums| => enums[i].shortName)
  }

  // ---------- What the tables hold ----------

  /** No other entry has this name. */
  predicate Only(names: seq<string>, i: nat)
    requires i < |names|
  {
    forall j | 0 <= j < |names| && j != i :: names[j] != names[i]
  }

  predicate Distinct(names: seq<string>) {
    forall i, j | 0 <= i < j < |names| :: names[i] != names[j]
  }

  /** A canonical name stands for its last declaration, and any other for the only declaration with that short name. */
  predicate StandsFor(structs: seq<PendingStruct>, name: string, i: nat)
    requires i < |structs|
  {
    if structs[i].canonicalName == name then
      forall j | i < j < |structs| :: structs[j].canonicalName != name
    else
      && structs[i].shortName == name && Only(StructNames(structs), i)
      && forall j | 0 <= j < |structs| :: structs[j].canonicalName != name
  }

  ghost predicate StructTable(structs: seq<PendingStruct>, table: map<string, SolStruct>) {
    && (forall name | name in table ::
          exists i | 0 <= i < |structs| :: StandsFor(structs, name, i) && table[name] == Defined(structs[i]))
    && (forall i, name | 0 <= i < |structs| && StandsFor(structs, name, i) :: name in table)
  }

  predicate EnumNamed(enums: seq<PendingEnum>, name: string) {
    exists i | 0 <= i < |enums| ::
      enums[i].canonicalName == name || (enums[i].shortName == name && Only(EnumNames(enums), i))
  }

  ghost predicate EnumTable(enums: seq<PendingEnum>, table: set<string>) {
    forall name :: name in table <==> EnumNamed(enums, name)
  }

  // ---------- Building them ----------

  function Occurrences(names: seq<string>, name: string): nat {
    if names == [] then 0
    else Occurrences(names[..|names| - 1], name) + (if names[|names| - 1] == name then 1 else 0)
  }

  lemma {:induction false} OccursAt(names: seq<string>, name: string, i: nat)
    requires i < |names| && names[i] == name
    ensures Occurrences(names, name) >= 1
    ensures Occurrences(names, name) == 1 <==> Only(names, i)
  {
    var init, last := names[..|names| - 1], |names| - 1;
    if i < last {
      OccursAt(init, name, i);
      assert forall j | 0 <= j < last :: init[j] == names[j];
    } else if Occurrences(init, name) > 0 {
      var j := Occurs(init, name);
      assert names[j] == name;
    } else {
      forall j | 0 <= j < last ensures names[j] != name {
        assert init[j] == names[j];
        if names[j] == name { OccursAt(init, name, j); }
      }
    }
  }

  lemma {:induction false} Occurs(names: seq<string>, name: string) returns (i: nat)
    requires Occurrences(names, name) > 0
    ensures i < |names| && names[i] == name
  {
    i := |names| - 1;
    if names[i] != name { i := Occurs(names[..|names| - 1], name); }
  }

  method CountNames(names: seq<string>) returns (counts: map<string, nat>)
    ensures forall i | 0 <= i < |names| :: names[i] in counts && (counts[names[i]] == 1 <==> Only(names, i))
  {
    counts := map[];
    for k := 0 to |names|
      invariant forall i | 0 <= i < k :: names[i] in counts
      invariant forall name | name in counts :: counts[name] == Occurrences(names[..k], name)
      invariant forall name :: name !in counts ==> Occurrences(names[..k], name) == 0
    {
      assert names[..k + 1][..k] == names[..k];
      var before := if names[k] in counts then counts[names[k]] else 0;
      counts := counts[names[k] := before + 1];
    }
    assert names[..|names|] == names;
    forall i | 0 <= i < |names| ensures counts[names[i]] == 1 <==> Only(names, i) {
      OccursAt(names, names[i], i);
    }
  }

  /** Canonical names among the first `k` declarations, each with its last one. */
  ghost predicate Declared(structs: seq<PendingStruct>, k: nat, table: map<string, SolStruct>)
    requires k <= |structs|
  {
    && (forall i | 0 <= i < k :: structs[i].canonicalName in table)
    && (forall name | name in table ::
          exists i | 0 <= i < k :: structs[i].canonicalName == name && table[name] == Defined(structs[i]) &&
                                   forall j | i < j < k :: structs[j].canonicalName != name)
  }

  method DeclareStructs(structs: seq<PendingStruct>) returns (table: map<string, SolStruct>)
    ensures Declared(structs, |structs|, table)
  {
    table := map[];
    for k := 0 to |structs|
      invariant Declared(structs, k, table)
    {
      table := table[structs[k].canonicalName := Defined(structs[k])];
    }
  }

  /** The short names that only one struct has, of the first `k` declarations, on top of the canonical names. */
  ghost predicate Shortened(structs: seq<PendingStruct>, k: nat, canonical: map<string, SolStruct>,
      table: map<string, SolStruct>)
    requires k <= |structs|
  {
    && (forall name | name in canonical :: name in table && table[name] == canonical[name])
    && (forall name | name in table && name !in canonical :: ShortFor(structs, k, name, table[name]))
    && (forall i | 0 <= i < k && Only(StructNames(structs), i) :: structs[i].shortName in table)
  }

  ghost predicate ShortFor(structs: seq<PendingStruct>, k: nat, name: string, def: SolStruct)
    requires k <= |structs|
  {
    exists i | 0 <= i < k :: structs[i].shortName == name && Only(StructNames(structs), i) && def == Defined(structs[i])
  }

  lemma TablesJoin(structs: seq<PendingStruct>, canonical: map<string, SolStruct>, table: map<string, SolStruct>)
    requires Declared(structs, |structs|, canonical)
    requires Shortened(structs, |structs|, canonical, table)
    ensures StructTable(structs, table)
  {
    hide Only;
    forall name | name in table
      ensures exists i | 0 <= i < |structs| :: StandsFor(structs, name, i) && table[name] == Defined(structs[i])
    {
      if name in canonical {
        var i :| 0 <= i < |structs| && structs[i].canonicalName == name && canonical[name] == Defined(structs[i]) &&
          forall j | i < j < |structs| :: structs[j].canonicalName != name;
        assert StandsFor(structs, name, i);
      } else {
        assert ShortFor(structs, |structs|, name, table[name]);
        var i :| 0 <= i < |structs| && structs[i].shortName == name && Only(StructNames(structs), i) &&
            table[name] == Defined(structs[i]);
        assert forall j | 0 <= j < |structs| :: structs[j].canonicalName != name;
        assert StandsFor(structs, name, i);
      }
    }
  }

  method AddShortNames(structs: seq<PendingStruct>, counts: map<string, nat>, canonical: map<string, SolStruct>)
      returns (table: map<string, SolStruct>)
    requires forall i | 0 <= i < |structs| ::
               structs[i].shortName in counts && (counts[structs[i].shortName] == 1 <==> Only(StructNames(structs), i))
    ensures Shortened(structs, |structs|, canonical, table)
  {
    hide Only, StructNames;
    table := canonical;
    for k := 0 to |structs|
      invariant Shortened(structs, k, canonical, table)
    {
      var short := structs[k].shortName;
      ghost var before := table;
      if counts[short] == 1 && short !in table {
        table := table[short := Defined(structs[k])];
      }
      forall name | name in table && name !in canonical ensures ShortFor(structs, k + 1, name, table[name]) {
        if name in before { assert ShortFor(structs, k, name, table[name]); }
      }
    }
  }

  method NameEnums(enums: seq<PendingEnum>, counts: map<string, nat>) returns (table: set<string>)
    requires forall i | 0 <= i < |enums| ::
               enums[i].shortName in counts && (counts[enums[i].shortName] == 1 <==> Only(EnumNames(enums), i))
    ensures EnumTable(enums, table)
  {
    hide Only;
    table := {};
    for k := 0 to |enums|
      invariant forall name :: name in table <==> exists i | 0 <= i < k :: enums[i].canonicalName == name
    {
      table := table + {enums[k].canonicalName};
    }
    for k := 0 to |enums|
      invariant forall name :: name in table <==>
          || (exists i | 0 <= i < |enums| :: enums[i].canonicalName == name)
          || (exists i | 0 <= i < k :: enums[i].shortName == name && Only(EnumNames(enums), i))
    {
      if counts[enums[k].shortName] == 1 {
        table := table + {enums[k].shortName};
      }
    }
  }

  method FinalizeTypeRegistry(structs: seq<PendingStruct>, enums: seq<PendingEnum>, contracts: set<string>)
      returns (registry: Registry)
    ensures StructTable(structs, registry.structs)
    ensures EnumTable(enums, registry.enums)
    ensures registry.contracts == contracts
  {
    hide StructTable, EnumTable, Declared, Shortened, Only;
    var structCounts := CountNames(StructNames(structs));
    var enumCounts := CountNames(EnumNames(enums));
    assert forall i | 0 <= i < |structs| :: StructNames(structs)[i] == structs[i].shortName;
    assert forall i | 0 <= i < |enums| :: EnumNames(enums)[i] == enums[i].shortName;
    var canonical := DeclareStructs(structs);
    var structTable := AddShortNames(structs, structCounts, canonical);
    TablesJoin(structs, canonical, structTable);
    var enumTable := NameEnums(enums, enumCounts);
    registry := Registry(structTable, enumTable, contracts);
  }

  // ---------- When names mean the same to every contract ----------

  predicate Dotless(name: string) {
    '.' !in name
  }

  /** `owners[i]` is the contract that declares the i-th name, empty at file level. */
  predicate DeclaredIn(owners: seq<string>, shorts: seq<string>, canonicals: seq<string>) {
    && |owners| == |shorts| == |canonicals|
    && Distinct(canonicals)
    && forall i | 0 <= i < |owners| ::
         Dotless(owners[i]) && Dotless(shorts[i]) && canonicals[i] == QualifyUserType(owners[i], shorts[i])
  }

  function Canonicals(structs: seq<PendingStruct>): (names: seq<string>)
    ensures |names| == |structs| && forall i | 0 <= i < |names| :: names[i] == structs[i].canonicalName
  {
    seq(|structs|, i requires 0 <= i < |structs| => structs[i].canonicalName)
  }

  function EnumCanonicals(enums: seq<PendingEnum>): (names: seq<string>)
    ensures |names| == |enums| && forall i | 0 <= i < |names| :: names[i] == enums[i].canonicalName
  {
    seq(|enums|, i requires 0 <= i < |enums| => enums[i].canonicalName)
  }

  lemma QualifiedName(owner: string, short: string, prefix: string, base: string)
    requires Dotless(owner) && Dotless(short)
    ensures QualifyUserType(owner, short) == prefix + "." + base <==> owner != "" && owner == prefix && short == base
  {
    var name := QualifyUserType(owner, short);
    if name == prefix + "." + base {
      assert name[|prefix|] == '.';
      if owner != "" {
        assert name[|owner|] == '.';
        assert |prefix| == |owner|;
        assert name[..|owner|] == owner == prefix;
        assert name[|owner| + 1..] == short == base;
      }
    }
  }

  lemma TableEntry(structs: seq<PendingStruct>, table: map<string, SolStruct>, name: string) returns (i: nat)
    requires StructTable(structs, table) && name in table
    ensures i < |structs| && StandsFor(structs, name, i) && table[name] == Defined(structs[i])
  {
    i :| 0 <= i < |structs| && StandsFor(structs, name, i) && table[name] == Defined(structs[i]);
  }

  lemma TableHolds(structs: seq<PendingStruct>, table: map<string, SolStruct>, name: string, i: nat)
    requires StructTable(structs, table) && Distinct(Canonicals(structs))
    requires i < |structs| && structs[i].canonicalName == name
    ensures name in table && table[name] == Defined(structs[i])
  {
    hide StructTable;
    assert StandsFor(structs, name, i) by {
      forall j | i < j < |structs| ensures structs[j].canonicalName != name {
        assert Canonicals(structs)[i] != Canonicals(structs)[j];
      }
    }
    assert name in table by { TableHas(structs, table, name, i); }
    var j := TableEntry(structs, table, name);
  }

  lemma TableHas(structs: seq<PendingStruct>, table: map<string, SolStruct>, name: string, i: nat)
    requires StructTable(structs, table) && i < |structs| && StandsFor(structs, name, i)
    ensures name in table
  {
  }

  /** Struct names mean the same to every contract exactly when no two structs share a short name. */
  lemma StructsResolveAlike(owners: seq<string>, structs: seq<PendingStruct>, registry: Registry)
    requires StructTable(structs, registry.structs)
    requires DeclaredIn(owners, StructNames(structs), Canonicals(structs))
    ensures StructsAlike(registry) <==> Distinct(StructNames(structs))
  {
    hide StructTable, StandsFor;
    if Distinct(StructNames(structs)) {
      forall base, owner ensures ResolveStruct(base, owner, registry) == ResolveStruct(base, "", registry) {
        OwnerIrrelevant(owners, structs, registry, base, owner);
      }
    } else {
      var i, j :| 0 <= i < j < |structs| && StructNames(structs)[i] == StructNames(structs)[j];
      assert Canonicals(structs)[i] != Canonicals(structs)[j];
      OwnFirst(owners, structs, registry, i);
      OwnFirst(owners, structs, registry, j);
    }
  }

  /** A contract sees its own struct under the short name. */
  lemma OwnFirst(owners: seq<string>, structs: seq<PendingStruct>, registry: Registry, i: nat)
    requires StructTable(structs, registry.structs)
    requires DeclaredIn(owners, StructNames(structs), Canonicals(structs))
    requires i < |structs|
    ensures ResolveStruct(structs[i].shortName, owners[i], registry) == Some(Defined(structs[i]))
  {
    hide StructTable, StandsFor;
    TableHolds(structs, registry.structs, Canonicals(structs)[i], i);
    assert Canonicals(structs)[i] == QualifyUserType(owners[i], StructNames(structs)[i]);
  }

  lemma OwnerIrrelevant(owners: seq<string>, structs: seq<PendingStruct>, registry: Registry, base: string,
      owner: string)
    requires StructTable(structs, registry.structs)
    requires DeclaredIn(owners, StructNames(structs), Canonicals(structs))
    requires Distinct(StructNames(structs))
    ensures ResolveStruct(base, owner, registry) == ResolveStruct(base, "", registry)
  {
    hide StructTable;
    var qualified := owner + "." + base;
    if owner != "" && qualified in registry.structs {
      var i := TableEntry(structs, registry.structs, qualified);
      var short := StructNames(structs)[i];
      assert qualified[|owner|] == '.';
      assert Canonicals(structs)[i] == qualified;
      QualifiedName(owners[i], short, owner, base);
      forall j | 0 <= j < |structs| && j != i
        ensures structs[j].canonicalName != base && StructNames(structs)[j] != short
      {
        var low, high := if i < j then i else j, if i < j then j else i;
        assert StructNames(structs)[low] != StructNames(structs)[high];
        assert Canonicals(structs)[j] == QualifyUserType(owners[j], StructNames(structs)[j]);
      }
      assert StandsFor(structs, base, i);
      TableHas(structs, registry.structs, base, i);
      var k := TableEntry(structs, registry.structs, base);
    }
  }

  /** The same for enums, where a name at file level also serves for one that is repeated. */
  lemma EnumsResolveAlike(owners: seq<string>, enums: seq<PendingEnum>, registry: Registry)
    requires EnumTable(enums, registry.enums)
    requires DeclaredIn(owners, EnumNames(enums), EnumCanonicals(enums))
    ensures EnumsAlike(registry) <==>
            forall i | 0 <= i < |enums| ::
              Only(EnumNames(enums), i) ||
              exists j | 0 <= j < |enums| :: owners[j] == "" && EnumNames(enums)[j] == EnumNames(enums)[i]
  {
    hide EnumTable, Only;
    var shorts := EnumNames(enums);
    if forall i | 0 <= i < |enums| ::
         Only(shorts, i) || exists j | 0 <= j < |enums| :: owners[j] == "" && shorts[j] == shorts[i]
    {
      forall base, owner ensures ResolveEnum(base, owner, registry) == ResolveEnum(base, "", registry) {
        if owner != "" && owner + "." + base in registry.enums {
          SeenFromAnywhere(owners, enums, registry, base, owner);
        }
      }
    } else {
      var i :| 0 <= i < |enums| && !Only(shorts, i) &&
        forall j | 0 <= j < |enums| :: owners[j] != "" || shorts[j] != shorts[i];
      SeenByOwnerOnly(owners, enums, registry, i);
    }
  }

  lemma SeenFromAnywhere(owners: seq<string>, enums: seq<PendingEnum>, registry: Registry, base: string, owner: string)
    requires EnumTable(enums, registry.enums)
    requires DeclaredIn(owners, EnumNames(enums), EnumCanonicals(enums))
    requires forall i | 0 <= i < |enums| ::
               Only(EnumNames(enums), i) ||
               exists j | 0 <= j < |enums| :: owners[j] == "" && EnumNames(enums)[j] == EnumNames(enums)[i]
    requires owner + "." + base in registry.enums
    ensures base in registry.enums
  {
    hide Only;
    var qualified := owner + "." + base;
    assert qualified[|owner|] == '.';
    var i :| 0 <= i < |enums| &&
        (enums[i].canonicalName == qualified || (enums[i].shortName == qualified && Only(EnumNames(enums), i)));
    assert Dotless(EnumNames(enums)[i]);
    assert EnumCanonicals(enums)[i] == QualifyUserType(owners[i], EnumNames(enums)[i]);
    QualifiedName(owners[i], EnumNames(enums)[i], owner, base);
    if !Only(EnumNames(enums), i) {
      var j :| 0 <= j < |enums| && owners[j] == "" && EnumNames(enums)[j] == EnumNames(enums)[i];
      assert EnumCanonicals(enums)[j] == base;
      assert enums[j].canonicalName == base;
    }
    assert EnumNamed(enums, base);
  }

  lemma SeenByOwnerOnly(owners: seq<string>, enums: seq<PendingEnum>, registry: Registry, i: nat)
    requires EnumTable(enums, registry.enums)
    requires DeclaredIn(owners, EnumNames(enums), EnumCanonicals(enums))
    requires i < |enums| && !Only(EnumNames(enums), i)
    requires forall j | 0 <= j < |enums| :: owners[j] != "" || EnumNames(enums)[j] != EnumNames(enums)[i]
    ensures ResolveEnum(enums[i].shortName, owners[i], registry) && !ResolveEnum(enums[i].shortName, "", registry)
  {
    var short := EnumNames(enums)[i];
    assert EnumCanonicals(enums)[i] == QualifyUserType(owners[i], short);
    assert EnumNamed(enums, enums[i].canonicalName);
    assert !EnumNamed(enums, short);
  }

  /** If no name is repeated, text and component tree agree on every type that settles and has no empty struct. */
  lemma DistinctNamesAgree(owners: seq<string>, structs: seq<PendingStruct>, enumOwners: seq<string>,
                           enums: seq<PendingEnum>, registry: Registry, field: SolField, caller: string)
    requires StructTable(structs, registry.structs) && EnumTable(enums, registry.enums)
    requires DeclaredIn(owners, StructNames(structs), Canonicals(structs)) && Distinct(StructNames(structs))
    requires DeclaredIn(enumOwners, EnumNames(enums), EnumCanonicals(enums)) && Distinct(EnumNames(enums))
    requires Spelled(registry) && SpelledType(field.ty)
    requires Settles(field.ty, caller, registry, MAX_TYPE_RECURSION_DEPTH + 1)
    ensures Unfolds(field.ty, caller, registry, MAX_TYPE_RECURSION_DEPTH + 1)
    ensures CanonicalType(EncodeSolField(field, caller, registry, MAX_TYPE_RECURSION_DEPTH + 1)) ==
            TypeToCanonical(field.ty, caller, registry) <==>
            Hollows(field.ty, caller, registry, MAX_TYPE_RECURSION_DEPTH + 1) == 0
  {
    hide StructTable, EnumTable, DeclaredIn, Settles, Unfolds, MeetsAlike, Hollows, CanonicalType, EncodeSolField;
    hide TypeToCanonical;
    StructsResolveAlike(owners, structs, registry);
    EnumsResolveAlike(enumOwners, enums, registry);
    AlikeEverywhere(field.ty, caller, caller, registry, MAX_TYPE_RECURSION_DEPTH + 1);
    CanonicalAgrees(field, caller, registry);
  }

  predicate Basic(ty: string, owner: string, registry: Registry) {
    && SpelledType(ty)
    && ResolveStruct(Split(ty).0, owner, registry) == None
    && Elementary(Split(ty).0, owner, registry) == Split(ty).0
  }

  /**
   A struct used outside its contract, whose member type has the name of a struct there: the two
   renderings use different structs.
   */
  lemma OwnersPart(field: SolField, caller: string, registry: Registry, def: SolStruct, mine: SolStruct,
      other: SolStruct)
    requires Spelled(registry) && SpelledType(field.ty)
    requires ResolveStruct(Split(field.ty).0, caller, registry) == Some(def) && |def.fields| == 1
    requires var base, owner := Split(def.fields[0].ty).0, OwnerFromCanonical(def.name);
             && ResolveStruct(base, owner, registry) == Some(mine) && |mine.fields| == 1
             && Basic(mine.fields[0].ty, OwnerFromCanonical(mine.name), registry)
             && ResolveStruct(base, caller, registry) == Some(other) && |other.fields| == 1
             && Basic(other.fields[0].ty, caller, registry)
    ensures Unfolds(field.ty, caller, registry, MAX_TYPE_RECURSION_DEPTH + 1)
    ensures var inner, outer := ")" + Split(def.fields[0].ty).1, ")" + Split(field.ty).1;
            && TypeToCanonical(field.ty, caller, registry) == "(" + ("(" + mine.fields[0].ty + inner) + outer
            && CanonicalType(EncodeSolField(field, caller, registry, MAX_TYPE_RECURSION_DEPTH + 1)) ==
               "(" + ("(" + other.fields[0].ty + inner) + outer
  {
    hide Split, ResolveStruct, Elementary, Join, OwnerFromCanonical, Spelled, TypeToCanonicalInner, CanonicalType,
        EncodeSolField;
    var n := MAX_TYPE_RECURSION_DEPTH + 1;
    var owner, member := OwnerFromCanonical(def.name), def.fields[0];
    OneMember(field.ty, caller, registry, 0, def);
    OneMember(member.ty, owner, registry, 1, mine);
    BasicText(mine.fields[0].ty, OwnerFromCanonical(mine.name), registry, 2);
    BasicTree(other.fields[0], caller, registry, n - 2);
    OneMemberTree(member, caller, registry, n - 1, other);
    OneMemberTree(field, caller, registry, n, def);
  }

  lemma BasicText(ty: string, owner: string, registry: Registry, depth: nat)
    requires Spelled(registry) && Basic(ty, owner, registry)
    ensures TypeToCanonicalInner(ty, owner, registry, depth) == ty
  {
    hide Split;
  }

  lemma BasicTree(field: SolField, owner: string, registry: Registry, n: nat)
    requires Spelled(registry) && Basic(field.ty, owner, registry)
    ensures Unfolds(field.ty, owner, registry, n)
    ensures CanonicalType(EncodeSolField(field, owner, registry, n)) == field.ty
  {
    hide Split;
  }

  // ---------- One source with a repeated name ----------

  /** Contracts A and B each with their own T, and a member of type T in A.S, which B uses. */
  function SharedNameStructs(): seq<PendingStruct> {
    [PendingStruct("A.T", "T", [SolField("x", "uint256")]),
     PendingStruct("A.S", "S", [SolField("t", "T")]),
     PendingStruct("B.T", "T", [SolField("x", "bool")])]
  }

  /** T is not unique and has no entry of its own; S has. */
  function SharedName(): Registry {
    Registry(
      map["A.T" := SolStruct("A.T", [SolField("x", "uint256")]),
          "B.T" := SolStruct("B.T", [SolField("x", "bool")]),
          "A.S" := SolStruct("A.S", [SolField("t", "T")]),
          "S" := SolStruct("A.S", [SolField("t", "T")])],
      {}, {"A", "B"})
  }

  lemma SharedNameStands()
    ensures var structs := SharedNameStructs();
            && StandsFor(structs, "A.T", 0) && StandsFor(structs, "A.S", 1) && StandsFor(structs, "S", 1)
            && StandsFor(structs, "B.T", 2)
            && !Only(StructNames(structs), 0) && !Only(StructNames(structs), 2)
  {
    var names := StructNames(SharedNameStructs());
    assert names[0] == "T" && names[1] == "S" && names[2] == "T";
  }

  /** It is the table that is built for that source. */
  lemma SharedNameBuilt()
    ensures StructTable(SharedNameStructs(), SharedName().structs)
  {
    SharedNameStands();
    var structs, table := SharedNameStructs(), SharedName().structs;
    hide Only;
    forall name | name in table
      ensures exists i | 0 <= i < |structs| :: StandsFor(structs, name, i) && table[name] == Defined(structs[i])
    {
      var i := if name == "A.T" then 0 else if name == "B.T" then 2 else 1;
      assert StandsFor(structs, name, i) && table[name] == Defined(structs[i]);
    }
    forall i, name | 0 <= i < |structs| && StandsFor(structs, name, i)
      ensures name in table
    {
      assert structs[i].canonicalName == name || structs[i].shortName == name;
    }
  }

  lemma SharedNameLookups()
    ensures OwnerFromCanonical("A.S") == "A"
    ensures ResolveStruct("A.S", "B", SharedName()) == Some(SolStruct("A.S", [SolField("t", "T")]))
    ensures ResolveStruct("T", "A", SharedName()) == Some(SolStruct("A.T", [SolField("x", "uint256")]))
    ensures ResolveStruct("T", "B", SharedName()) == Some(SolStruct("B.T", [SolField("x", "bool")]))
  {
    LastIndexIs("A.S", '.', 1);
    hide LastIndex;
    assert "A.S"[..1] == "A";
    assert "A" + "." + "T" == "A.T" && "B" + "." + "T" == "B.T";
    assert ("B" + "." + "A.S")[0] == 'B' && ("B" + "." + "A.S")[2] == 'A';
  }

  lemma SharedNameSpelled()
    ensures Spelled(SharedName())
    ensures Split("A.S") == ("A.S", "") && Split("T") == ("T", "")
    ensures SpelledType("A.S")
  {
    PlainSplit("uint256");
    PlainSplit("bool");
    PlainSplit("T");
    PlainSplit("A.S");
    hide Split, Uncut;
    forall name | name in SharedName().structs
      ensures SpelledFields(SharedName().structs[name].fields)
    {
    }
  }

  lemma SharedNameBasics(owner: string)
    ensures Basic("uint256", owner, SharedName()) && Basic("bool", owner, SharedName())
  {
    PlainSplit("uint256");
    PlainSplit("bool");
    hide Split, Uncut;
    assert |owner + "." + "uint256"| > 3 && |owner + "." + "bool"| > 3;
  }

  lemma RepeatedNamesDisagree()
    ensures var registry, field := SharedName(), SolField("s", "A.S");
            && StructTable(SharedNameStructs(), registry.structs)
            && Spelled(registry) && SpelledType(field.ty)
            && Unfolds(field.ty, "B", registry, MAX_TYPE_RECURSION_DEPTH + 1)
            && TypeToCanonical(field.ty, "B", registry) == "(" + ("(" + "uint256" + ")") + ")"
            && CanonicalType(EncodeSolField(field, "B", registry, MAX_TYPE_RECURSION_DEPTH + 1)) ==
               "(" + ("(" + "bool" + ")") + ")"
  {
    hide Split, TypeToCanonical, CanonicalType, EncodeSolField, Unfolds, Uncut, Spelled, Basic, ResolveStruct,
        SharedName;
    hide OwnerFromCanonical, SpelledType, StructTable, SharedNameStructs;
    SharedNameBuilt();
    SharedNameSpelled();
    SharedNameLookups();
    var registry := SharedName();
    SharedNameBasics(OwnerFromCanonical("A.T"));
    SharedNameBasics("B");
    OwnersPart(SolField("s", "A.S"), "B", registry, SolStruct("A.S", [SolField("t", "T")]),
      SolStruct("A.T", [SolField("x", "uint256")]), SolStruct("B.T", [SolField("x", "bool")]));
    assert ")" + "" == ")";
  }
}
