/**
 What the limit on schemas accepts and which types the hand-written decoder takes apart, told from the
 parts of a type: the type itself, its components, their components, and so on.
 */
module AbiShapes {
  import opened Wrappers
  import opened AbiReference
  import opened AbiPreflight
  import opened AbiDecode

  predicate IsPart(part: Type, ty: Type) {
    part == ty ||
    match ty
    case Tuple(types) => exists t | t in types :: IsPart(part, t)
    case Array(inner) => IsPart(part, inner)
    case FixedArray(inner, _) => IsPart(part, inner)
    case _ => false
  }

  // ---------- The limit on schemas ----------

  /** The nodes of a type written out, a dynamic array as one of a single element. */
  function WrittenOut(ty: Type): (n: nat)
    ensures n >= 1
  {
    match ty
    case Tuple(types) => 1 + SumWrittenOut(types)
    case Array(inner) => 1 + WrittenOut(inner)
    case FixedArray(inner, len) => WrittenOut(inner) * len + 1
    case _ => 1
  }

  function SumWrittenOut(types: seq<Type>): nat {
    if types == [] then 0 else SumWrittenOut(types[..|types| - 1]) + WrittenOut(types[|types| - 1])
  }

  ghost predicate PartsInLimit(ty: Type) {
    forall part | IsPart(part, ty) :: WrittenOut(part) <= 100_000
  }

  lemma TupleParts(types: seq<Type>)
    ensures PartsInLimit(Tuple(types)) <==>
            WrittenOut(Tuple(types)) <= 100_000 && forall t | t in types :: PartsInLimit(t)
  {
    hide WrittenOut;
    if forall t | t in types :: PartsInLimit(t) {
      assert forall part | IsPart(part, Tuple(types)) ::
               part == Tuple(types) || exists t | t in types :: IsPart(part, t);
    }
    if PartsInLimit(Tuple(types)) {
      forall t, part | t in types && IsPart(part, t)
        ensures WrittenOut(part) <= 100_000
      {
        assert IsPart(part, Tuple(types));
      }
    }
  }

  lemma InnerParts(ty: Type)
    requires ty.Array? || ty.FixedArray?
    ensures PartsInLimit(ty) <==> WrittenOut(ty) <= 100_000 && PartsInLimit(ty.inner)
  {
    hide WrittenOut;
  }

  /** A schema is accepted exactly if no part of it has more than 100000 nodes, and its size is its nodes. */
  lemma {:induction false} SchemaAccepts(ty: Type)
    ensures SchemaSize(ty) == if PartsInLimit(ty) then Some(WrittenOut(ty)) else None
  {
    hide PartsInLimit, IsPart, HeadBytes, MinimumWords;
    match ty
    case Tuple(types) =>
      SchemasAccept(types);
      TupleParts(types);
    case Array(inner) =>
      SchemaAccepts(inner);
      InnerParts(ty);
    case FixedArray(inner, len) =>
      SchemaAccepts(inner);
      InnerParts(ty);
    case _ =>
      LeafParts(ty);
  }

  lemma LeafParts(ty: Type)
    requires !ty.Tuple? && !ty.Array? && !ty.FixedArray?
    ensures PartsInLimit(ty)
  {
  }

  lemma {:induction false} SchemasAccept(types: seq<Type>)
    ensures SumSizes(types) ==
            if forall t | t in types :: PartsInLimit(t) then Some(SumWrittenOut(types)) else None
  {
    hide PartsInLimit, SchemaSize, WrittenOut;
    if types != [] {
      var front, last := types[..|types| - 1], types[|types| - 1];
      assert forall t :: t in types <==> t in front || t == last;
      SchemasAccept(front);
      SchemaAccepts(last);
    }
  }

  // ---------- Zero-width parts ----------

  lemma {:induction false} ZeroWidthHasZero(ty: Type)
    requires MinimumWords(ty) == 0
    ensures HasZero(ty)
  {
    match ty
    case Tuple(types) =>
      if types != [] {
        assert types[|types| - 1] in types;
        ZeroWidthHasZero(types[|types| - 1]);
      }
    case FixedArray(inner, len) =>
      if len > 0 {
        Factor(len, MinimumWords(inner));
        ZeroWidthHasZero(inner);
      }
    case _ =>
  }

  lemma Factor(a: nat, b: nat)
    requires a > 0 && a * b == 0
    ensures b == 0
  {
  }

  lemma {:induction false} PartHasZero(part: Type, ty: Type)
    requires IsPart(part, ty) && HasZero(part)
    ensures HasZero(ty)
  {
    if part != ty {
      match ty
      case Tuple(types) =>
        var t :| t in types && IsPart(part, t);
        PartHasZero(part, t);
      case Array(inner) => PartHasZero(part, inner);
      case FixedArray(inner, _) => PartHasZero(part, inner);
    }
  }

  lemma {:induction false} HasZeroPart(ty: Type)
    requires HasZero(ty)
    ensures exists part :: IsPart(part, ty) && MinimumWords(part) == 0
  {
    match ty
    case Tuple(types) =>
      if types == [] {
        assert IsPart(ty, ty) && MinimumWords(ty) == 0;
      } else {
        var t :| t in types && HasZero(t);
        HasZeroPart(t);
        var part :| IsPart(part, t) && MinimumWords(part) == 0;
        assert IsPart(part, ty);
      }
    case Array(inner) =>
      HasZeroPart(inner);
      var part :| IsPart(part, inner) && MinimumWords(part) == 0;
      assert IsPart(part, ty);
    case FixedArray(inner, len) =>
      if len == 0 {
        assert IsPart(ty, ty) && MinimumWords(ty) == 0;
      } else {
        HasZeroPart(inner);
        var part :| IsPart(part, inner) && MinimumWords(part) == 0;
        assert IsPart(part, ty);
      }
  }

  ghost predicate HasZeroWidthPart(ty: Type) {
    exists part :: IsPart(part, ty) && MinimumWords(part) == 0
  }

  /** A type is taken apart exactly if some part of it has no width; any other is decoded whole, for one unit. */
  lemma TakenApart(ty: Type, token: Token)
    ensures HasZero(ty) <==> HasZeroWidthPart(ty)
    ensures !HasZeroWidthPart(ty) ==> Cost(ty, token) == 1
  {
    if HasZero(ty) {
      HasZeroPart(ty);
    }
    if part :| IsPart(part, ty) && MinimumWords(part) == 0 {
      ZeroWidthHasZero(part);
      PartHasZero(part, ty);
    }
  }
}
