/**
 The hand-written decoder that keeps the shape of zero-width aggregates. Types without such an
 aggregate go straight to the reference decoder; the others are taken apart here, with a budget.
 */
module AbiDecode {
  import opened Wrappers
  import opened ByteStrings
  import opened AbiReference
  import opened AbiPreflight

  predicate HasZero(ty: Type) {
    match ty
    case Tuple(types) => types == [] || exists t | t in types :: HasZero(t)
    case Array(inner) => HasZero(inner)
    case FixedArray(inner, len) => len == 0 || HasZero(inner)
    case _ => false
  }

  /** The calls `DecodeCompatible` makes on a token tree: an array costs one more for the tuple it is rewritten to. */
  function Cost(ty: Type, token: Token): (n: nat)
    ensures n >= 1
    decreases Height(ty), 0, 0
  {
    if !HasZero(ty) || !token.Group? then 1 else
      match ty
      case Tuple(types) => if |types| != |token.items| then 1 else 1 + SumCosts(types, token.items, |types|)
      case Array(inner) => 2 + SumCosts(ElementTypes(inner, |token.items|), token.items, |token.items|)
      case FixedArray(inner, _) => 2 + SumCosts(ElementTypes(inner, |token.items|), token.items, |token.items|)
      case _ => 1
  }

  function SumCosts(types: seq<Type>, items: seq<Token>, k: nat): (n: nat)
    requires k <= |types| && k <= |items|
    ensures n >= k
    decreases MaxHeight(types), 1, k
  {
    if k == 0 then 0 else
      assert types[k - 1] in types;
      SumCosts(types, items, k - 1) + Cost(types[k - 1], items[k - 1])
  }

  /** Decoding never costs more than two units for each token. */
  lemma {:induction false} CostAtMostTwiceNodes(ty: Type, token: Token)
    ensures Cost(ty, token) <= 2 * Nodes(token)
    decreases Height(ty), 0, 0
  {
    if HasZero(ty) && token.Group? {
      var items := token.items;
      assert items[..|items|] == items;
      match ty
      case Tuple(types) => if |types| == |items| { SumCostsAtMostTwice(types, items, |types|); }
      case Array(inner) => SumCostsAtMostTwice(ElementTypes(inner, |items|), items, |items|);
      case FixedArray(inner, _) => SumCostsAtMostTwice(ElementTypes(inner, |items|), items, |items|);
      case _ =>
    }
  }

  lemma {:induction false} SumCostsAtMostTwice(types: seq<Type>, items: seq<Token>, k: nat)
    requires k <= |types| && k <= |items|
    ensures SumCosts(types, items, k) <= 2 * SumNodes(items[..k])
    decreases MaxHeight(types), 1, k
  {
    if k > 0 {
      assert types[k - 1] in types;
      assert items[..k][..k - 1] == items[..k - 1];
      SumCostsAtMostTwice(types, items, k - 1);
      CostAtMostTwiceNodes(types[k - 1], items[k - 1]);
    }
  }

  lemma {:induction false} SumCostsMonotone(types: seq<Type>, items: seq<Token>, j: nat, k: nat)
    requires j <= k <= |types| && k <= |items|
    ensures SumCosts(types, items, j) <= SumCosts(types, items, k)
  {
    if j < k {
      SumCostsMonotone(types, items, j, k - 1);
    }
  }

  lemma {:induction false} DetokenizeSeqFails(types: seq<Type>, items: seq<Token>, j: nat, k: nat, leaf: LeafDecoder)
    requires j <= k <= |types| && k <= |items|
    requires DetokenizeSeq(types, items, j, leaf) == None
    ensures DetokenizeSeq(types, items, k, leaf) == None
  {
    if j < k {
      DetokenizeSeqFails(types, items, j, k - 1, leaf);
    }
  }

  /** The first `k` components depend on the first `k` tokens only. */
  lemma {:induction false} ComponentPrefix(types: seq<Type>, a: seq<Token>, b: seq<Token>, k: nat, leaf: LeafDecoder)
    requires k <= |types| && k <= |a| && k <= |b|
    requires a[..k] == b[..k]
    ensures DetokenizeSeq(types, a, k, leaf) == DetokenizeSeq(types, b, k, leaf)
    ensures SumCosts(types, a, k) == SumCosts(types, b, k)
  {
    if k > 0 {
      assert a[..k - 1] == a[..k][..k - 1] == b[..k - 1];
      assert a[k - 1] == a[..k][k - 1] == b[k - 1];
      ComponentPrefix(types, a, b, k - 1, leaf);
    }
  }

  /** The codec that is not part of this model, on a type it can represent. */
  function ReferenceDecode(ty: Type, data: seq<Byte>, leaf: LeafDecoder): (r: Result<Value, AbiError>) {
    match ParseParams(ty, data)
    case None => Err(Malformed)
    case Some(token) =>
      match Detokenize(ty, token, leaf)
      case None => Err(InvalidLeaf)
      case Some(value) => Ok(value)
  }

  /** What a decoding run must answer, given what the reference parses. */
  predicate Agrees(ty: Type, parsed: Option<Token>, leaf: LeafDecoder, budget: nat,
                   r: Result<Value, AbiError>, left: nat)
  {
    match parsed
    case None => r.Err? && r.error != Schema
    case Some(token) =>
      match r
      case Ok(value) => Detokenize(ty, token, leaf) == Some(value) && left + Cost(ty, token) == budget
      case Err(error) =>
        || (error == ValueLimit && Cost(ty, token) > budget)
        || (error == InvalidLeaf && Detokenize(ty, token, leaf) == None)
        || (error == LengthLimit && Nodes(token) >= WORD64)
  }

  /** A component's slice, with the offset word in front when the callee expects one. */
  function Prefixed(ty: Type, raw: seq<Byte>): (data: seq<Byte>)
    ensures |data| <= |raw| + 32
  {
    if IsDynamic(ty) && !ty.Tuple? then Word32(32) + raw else raw
  }

  lemma PrefixedParams(ty: Type, raw: seq<Byte>)
    ensures ParseParams(ty, Prefixed(ty, raw)) == Parse(ty, raw, 0)
  {
    if IsDynamic(ty) && !ty.Tuple? {
      var offset := Word32(32);
      assert (offset + raw)[0..32] == offset;
      ParseShift(ty, offset, raw, 0);
    }
  }

  method DecodeCompatible(ty: Type, data: seq<Byte>, leaf: LeafDecoder, budget: nat)
      returns (r: Result<Value, AbiError>, left: nat)
    requires |data| + 32 * budget < WORD64
    ensures Agrees(ty, ParseParams(ty, data), leaf, budget, r, left)
    ensures left <= budget
    decreases budget, 0
  {
    var spent;
    spent, left := Spend(budget);
    if spent.Err? {
      return Err(spent.error), left;
    }
    if !HasZero(ty) {
      return ReferenceDecode(ty, data, leaf), left;
    }
    match ty
    case Tuple(types) => r, left := DecodeTuple(types, data, leaf, left);
    case Array(_) | FixedArray(_, _) => r, left := DecodeArray(ty, data, leaf, left);
  }

  /** Component `i` of a tuple that parses as a whole. */
  lemma TuplePart(types: seq<Type>, data: seq<Byte>, leaf: LeafDecoder, i: nat)
    requires i < |types|
    requires ParseSeq(types, |types|, data, 0).Some?
    ensures var all := ParseSeq(types, |types|, data, 0).value;
            && ParseSeq(types, i, data, 0) == Some(all[..i])
            && ParseComponent(types[i], data, 0, HeadOffset(types, i)) == Some(all[i])
            && SumCosts(types, all[..i], i) == SumCosts(types, all, i)
  {
    var all := ParseSeq(types, |types|, data, 0).value;
    ParseSeqPrefix(types, i, |types|, data, 0);
    ParseSeqPrefix(types, i + 1, |types|, data, 0);
    assert all[..i + 1][i] == all[i];
    ComponentPrefix(types, all, all[..i], i, leaf);
  }

  /** A component that fails makes the tuple fail for the same reason. */
  lemma TupleFails(types: seq<Type>, data: seq<Byte>, leaf: LeafDecoder, i: nat, budget: nat, left: nat,
                   r: Result<Value, AbiError>)
    requires i < |types|
    requires ParseSeq(types, i, data, 0).Some?
    requires left + SumCosts(types, ParseSeq(types, i, data, 0).value, i) == budget
    requires r.Err? && Agrees(types[i], ParseComponent(types[i], data, 0, HeadOffset(types, i)), leaf, left, r, 0)
    requires HasZero(Tuple(types))
    ensures Agrees(Tuple(types), Parse(Tuple(types), data, 0), leaf, budget + 1, r, 0)
  {
    var n := |types|;
    if ParseSeq(types, n, data, 0).None? {
      assert r.error != Schema;
    } else {
      TuplePart(types, data, leaf, i);
      var all := ParseSeq(types, n, data, 0).value;
      TupleFailsWhole(types, all, leaf, i, budget, left, r);
    }
  }

  lemma TupleFailsWhole(types: seq<Type>, all: seq<Token>, leaf: LeafDecoder, i: nat, budget: nat, left: nat,
                        r: Result<Value, AbiError>)
    requires i < |types| == |all|
    requires left + SumCosts(types, all, i) == budget
    requires r.Err? && Agrees(types[i], Some(all[i]), leaf, left, r, 0)
    requires HasZero(Tuple(types))
    ensures Agrees(Tuple(types), Some(Group(all)), leaf, budget + 1, r, 0)
  {
    if r.error == ValueLimit {
      CostExceeds(types, all, i, left);
    } else if r.error == InvalidLeaf {
      LeafFails(types, all, leaf, i);
    } else {
      NodesExceed(all, i);
    }
  }

  lemma CostExceeds(types: seq<Type>, all: seq<Token>, i: nat, left: nat)
    requires i < |types| == |all|
    requires HasZero(Tuple(types))
    requires Cost(types[i], all[i]) > left
    ensures Cost(Tuple(types), Group(all)) > 1 + SumCosts(types, all, i) + left
  {
    SumCostsMonotone(types, all, i + 1, |types|);
  }

  lemma LeafFails(types: seq<Type>, all: seq<Token>, leaf: LeafDecoder, i: nat)
    requires i < |types| == |all|
    requires Detokenize(types[i], all[i], leaf) == None
    ensures Detokenize(Tuple(types), Group(all), leaf) == None
  {
    assert DetokenizeSeq(types, all, i + 1, leaf) == None;
    DetokenizeSeqFails(types, all, i + 1, |types|, leaf);
  }

  lemma NodesExceed(all: seq<Token>, i: nat)
    requires i < |all|
    ensures Nodes(Group(all)) > Nodes(all[i])
  {
    SumNodesPrefix(all, i + 1);
    assert all[..i + 1][..i] == all[..i] && all[..i + 1][i] == all[i];
  }

  lemma DecodeNext(types: seq<Type>, items: seq<Token>, item: Token, i: nat, leaf: LeafDecoder)
    requires i == |items| < |types|
    ensures DetokenizeSeq(types, items + [item], i, leaf) == DetokenizeSeq(types, items, i, leaf)
    ensures SumCosts(types, items + [item], i + 1) == SumCosts(types, items, i) + Cost(types[i], item)
  {
    ComponentPrefix(types, items + [item], items, i, leaf);
  }

  lemma TupleDone(types: seq<Type>, data: seq<Byte>, leaf: LeafDecoder, items: seq<Token>, values: seq<Value>,
                  budget: nat, left: nat)
    requires HasZero(Tuple(types))
    requires ParseSeq(types, |types|, data, 0) == Some(items)
    requires DetokenizeSeq(types, items, |types|, leaf) == Some(values)
    requires left + SumCosts(types, items, |types|) == budget
    ensures Agrees(Tuple(types), Parse(Tuple(types), data, 0), leaf, budget + 1, Ok(TupleValue(values)), left)
  {
    hide ParseSeq, DetokenizeSeq, SumCosts, HasZero;
  }

  method DecodeTuple(types: seq<Type>, data: seq<Byte>, leaf: LeafDecoder, budget: nat)
      returns (r: Result<Value, AbiError>, left: nat)
    requires HasZero(Tuple(types))
    requires |data| + 32 * budget + 32 < WORD64
    ensures Agrees(Tuple(types), Parse(Tuple(types), data, 0), leaf, budget + 1, r, left)
    ensures left <= budget
    decreases budget, 1
  {
    hide IsDynamic, Prefixed, HeadBytes, Parse, Detokenize, Cost, HasZero, Nodes, ParseComponent;
    left := budget;
    var head := 0;
    var values: seq<Value> := [];
    ghost var items := [];
    for i := 0 to |types|
      invariant head == HeadOffset(types, i)
      invariant ParseSeq(types, i, data, 0) == Some(items)
      invariant DetokenizeSeq(types, items, i, leaf) == Some(values)
      invariant left + SumCosts(types, items, i) == budget
    {
      var ty := types[i];
      var slice := FollowHead(ty, data, head);
      if slice.Err? {
        var error := if slice.error == TruncatedHead then Offset else slice.error;
        TupleFails(types, data, leaf, i, budget, left, Err(error));
        return Err(error), left;
      }
      PrefixedParams(ty, slice.value);
      ghost var before := left;
      r, left := DecodeCompatible(ty, Prefixed(ty, slice.value), leaf, left);
      if r.Err? {
        TupleFails(types, data, leaf, i, budget, before, r);
        return;
      }
      ghost var item := Parse(ty, slice.value, 0).value;
      DecodeNext(types, items, item, i, leaf);
      items := items + [item];
      values := values + [r.value];
      head := head + HeadBytes(ty);
    }
    TupleDone(types, data, leaf, items, values, budget, left);
    return Ok(TupleValue(values)), left;
  }

  /**
   An array with a zero-width element, or none at all, parses, decodes and costs like the tuple it is
   rewritten to.
   */
  lemma ArrayIsTuple(ty: Type, data: seq<Byte>, pos: nat, count: nat, raw: seq<Byte>, leaf: LeafDecoder,
                     budget: nat, r: Result<Value, AbiError>, left: nat)
    requires ty.Array? || ty.FixedArray?
    requires HasZero(ty)
    requires pos <= |data|
    requires if ty.Array? then pos + 32 <= |data| && count == WordAt(data, pos) && raw == data[pos + 32..]
             else count == ty.len && raw == data[pos..]
    requires Agrees(Tuple(ElementTypes(ty.inner, count)),
                    Parse(Tuple(ElementTypes(ty.inner, count)), raw, 0), leaf, budget, r, left)
    ensures HasZero(Tuple(ElementTypes(ty.inner, count)))
    ensures r.Ok? ==> r.value.TupleValue?
    ensures var whole := if r.Err? then r
              else Ok(if ty.Array? then ArrayValue(r.value.values) else FixedArrayValue(r.value.values));
            Agrees(ty, Parse(ty, data, pos), leaf, budget + 1, whole, left)
  {
    var types := ElementTypes(ty.inner, count);
    if count > 0 {
      assert types[0] in types;
    }
    ParseSeqSuffix(types, count, data, if ty.Array? then pos + 32 else pos);
  }

  /** A count that is no `usize` means the array could not fit any budget. */
  lemma CountTooLarge(ty: Type, tail: seq<Byte>, leaf: LeafDecoder, budget: nat, error: AbiError)
    requires ty.Array?
    requires WordUsize(tail) == Err(error)
    ensures Agrees(ty, Parse(ty, tail, 0), leaf, budget + 1, Err(error), 0)
  {
    if |tail| >= 32 {
      ManyElements(ty, tail, WORD64 - 1);
    }
  }

  method DecodeArray(ty: Type, data: seq<Byte>, leaf: LeafDecoder, budget: nat)
      returns (r: Result<Value, AbiError>, left: nat)
    requires ty.Array? || ty.FixedArray?
    requires HasZero(ty)
    requires |data| + 32 * budget + 32 < WORD64
    ensures Agrees(ty, ParseParams(ty, data), leaf, budget + 1, r, left)
    ensures left <= budget
    decreases budget, 1
  {
    left := budget;
    var slice := FollowHead(ty, data, 0);
    if slice.Err? {
      return Err(slice.error), left;
    }
    ghost var pos := Locate(ty, data, 0, 0).value;
    var tail := slice.value;
    var count, raw;
    if ty.Array? {
      var word := WordUsize(tail);
      if word.Err? {
        CountTooLarge(ty, tail, leaf, budget, word.error);
        return Err(word.error), left;
      }
      assert tail[0..32] == data[pos..pos + 32];
      count, raw := word.value, tail[32..];
    } else {
      count, raw := ty.len, tail;
    }
    if count > left {
      return Err(ValueLimit), left;
    }
    var tuple := Tuple(ElementTypes(ty.inner, count));
    r, left := DecodeCompatible(tuple, raw, leaf, left);
    ArrayIsTuple(ty, data, pos, count, raw, leaf, budget, r, left);
    if r.Ok? {
      match r.value
      case TupleValue(values) =>
        r := Ok(if ty.Array? then ArrayValue(values) else FixedArrayValue(values));
      case _ =>
        assert false;
        r := Err(Schema);
    }
  }

  /** After the preflight has passed, decoding can fail on its own budget or on a leaf, and on nothing else. */
  lemma AfterPreflight(ty: Type, data: seq<Byte>, leaf: LeafDecoder, budget: nat, r: Result<Value, AbiError>, left: nat)
    requires ParseParams(ty, data).Some? && Nodes(ParseParams(ty, data).value) <= MAX_NODES
    requires Agrees(ty, ParseParams(ty, data), leaf, budget, r, left)
    ensures var token := ParseParams(ty, data).value;
            && (r.Ok? <==> Cost(ty, token) <= budget && Detokenize(ty, token, leaf).Some?)
            && (r.Err? ==> r.error in {ValueLimit, InvalidLeaf})
            && (2 * Nodes(token) <= budget && r.Err? ==> r.error == InvalidLeaf)
  {
    CostAtMostTwiceNodes(ty, ParseParams(ty, data).value);
  }

  const EMPTY_ARRAY: Type := FixedArray(Uint(256), 0)

  /** `n` empty fixed arrays: the preflight spends `n + 1`, and decoding twice as much. */
  lemma EmptyElementsCostDouble(n: nat)
    requires n < WORD64
    ensures var token := ParseParams(Array(EMPTY_ARRAY), Word32(32) + Word32(n));
            && token.Some?
            && Nodes(token.value) == n + 1
            && Cost(Array(EMPTY_ARRAY), token.value) == 2 * (n + 1)
  {
    hide ParseSeq, SumNodes, SumCosts, HeadOffset;
    var tail := Word32(n);
    PrefixedParams(Array(EMPTY_ARRAY), tail);
    assert tail[0..32] == tail;
    EmptyElement(tail);
    EmptyElements(EMPTY_ARRAY, n, n, tail);
  }

  lemma EmptyElement(buf: seq<Byte>)
    requires |buf| == 32
    ensures HeadBytes(EMPTY_ARRAY) == 0
    ensures ParseComponent(EMPTY_ARRAY, buf, 32, 32) == Some(Group([]))
    ensures Cost(EMPTY_ARRAY, Group([])) == 2
  {
  }

  lemma {:induction false} EmptyElements(inner: Type, n: nat, k: nat, buf: seq<Byte>)
    requires k <= n
    requires |buf| == 32
    requires HeadBytes(inner) == 0
    requires ParseComponent(inner, buf, 32, 32) == Some(Group([]))
    requires Cost(inner, Group([])) == 2
    ensures var types := ElementTypes(inner, n);
            var items := ParseSeq(types, k, buf, 32);
            && items.Some?
            && SumNodes(items.value) == k
            && SumCosts(types, items.value, k) == 2 * k
  {
    hide Parse, ParseComponent, Cost, HeadOffset, HeadBytes, Repeat, Height, MaxHeight;
    var types := ElementTypes(inner, n);
    if k > 0 {
      EmptyElements(inner, n, k - 1, buf);
      var items := ParseSeq(types, k - 1, buf, 32).value;
      HeadOffsetRepeat(inner, n, k - 1);
      assert types[k - 1] == inner;
      var more := items + [Group([])];
      assert ParseSeq(types, k, buf, 32) == Some(more);
      assert more[..k - 1] == items;
      DecodeNext(types, items, Group([]), k - 1, (t, u) => None);
    }
  }
}
