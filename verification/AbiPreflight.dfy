/**
 The bounds check that runs before any token tree is allocated: the size limit on schemas, and the
 budgeted walk over heads, offsets and lengths. A `&mut usize` budget of the source is an
 in-parameter and an out-parameter here, and a sub-slice is the suffix it denotes.
 */
module AbiPreflight {
  import opened Wrappers
  import opened ByteStrings
  import opened AbiReference

  const MAX_BYTES: nat := 16 * 1024 * 1024
  const MAX_NODES: nat := 100_000

  datatype AbiError =
    | ValueLimit
    | PayloadLimit
    | TypeLimit
    | Offset
    | TruncatedHead
    | TruncatedWord
    | Length
    | LengthLimit
    | Schema
    | Malformed
    | InvalidLeaf
    | InvalidTerm
    | IntegerOverflow
    | AddressLength
    | FunctionLength
    | BytesLength
    | InvalidUtf8
    | Arity
    | ArrayLength

  // ---------- Schema size ----------

  function SchemaSize(ty: Type): (r: Option<nat>)
    ensures r.Some? ==> 1 <= r.value <= MAX_NODES && HeadBytes(ty) <= 32 * r.value
    ensures r.Some? ==> MinimumWords(ty) <= r.value
  {
    var size := match ty
      case Tuple(types) =>
        (match SumSizes(types) case None => None case Some(n) => Some(1 + n))
      case Array(inner) =>
        (match SchemaSize(inner) case None => None case Some(n) => Some(1 + n))
      case FixedArray(inner, len) =>
        (match SchemaSize(inner) case None => None case Some(n) =>
           ProductBound(len, MinimumWords(inner), n);
           Some(n * len + 1))
      case _ => Some(1);
    if size.Some? && size.value > MAX_NODES then None else size
  }

  function SumSizes(types: seq<Type>): (r: Option<nat>)
    ensures r.Some? ==> SumWords(types) <= r.value
    ensures r.Some? ==> forall t | t in types :: SchemaSize(t).Some?
  {
    if types == [] then Some(0) else
      var front, last := types[..|types| - 1], types[|types| - 1];
      assert forall t | t in types :: t in front || t == last;
      match (SumSizes(front), SchemaSize(last))
      case (Some(n), Some(m)) => Some(n + m)
      case _ => None
  }

  /** A whole head part stays far below what a `usize` can count. */
  lemma {:induction false} HeadOffsetBound(types: seq<Type>, k: nat)
    requires k <= |types|
    requires SumSizes(types).Some?
    ensures HeadOffset(types, k) <= 32 * SumSizes(types).value
    decreases |types|
  {
    if types != [] {
      var front := types[..|types| - 1];
      HeadOffsetBound(front, if k == |types| then k - 1 else k);
      HeadOffsetFront(types, front, if k == |types| then k - 1 else k);
    }
  }

  lemma HeadOffsetFront(types: seq<Type>, front: seq<Type>, k: nat)
    requires k <= |front| && front <= types
    ensures HeadOffset(types, k) == HeadOffset(front, k)
  {
  }

  lemma ProductBound(len: nat, words: nat, size: nat)
    ensures words <= size ==> len * words <= size * len
  {
  }

  predicate HasArray(ty: Type) {
    match ty
    case Array(_) => true
    case Tuple(types) => exists t | t in types :: HasArray(t)
    case FixedArray(inner, _) => HasArray(inner)
    case _ => false
  }

  /** Without a dynamic array, every encoding of a type has exactly the nodes its schema counts. */
  lemma {:induction false} SchemaSizeIsNodeCount(ty: Type, buf: seq<Byte>, pos: nat)
    requires pos <= |buf|
    requires !HasArray(ty)
    requires SchemaSize(ty).Some?
    requires Parse(ty, buf, pos).Some?
    ensures Nodes(Parse(ty, buf, pos).value) == SchemaSize(ty).value
    decreases Height(ty), 0, 0
  {
    match ty
    case Tuple(types) =>
      assert types[..|types|] == types;
      SchemaSizesAreNodeCounts(types, |types|, buf, pos);
    case FixedArray(inner, len) =>
      var types := ElementTypes(inner, len);
      SumSizesRepeat(inner, len);
      assert types[..len] == types;
      SchemaSizesAreNodeCounts(types, len, buf, pos);
    case _ =>
  }

  lemma {:induction false} SchemaSizesAreNodeCounts(types: seq<Type>, k: nat, buf: seq<Byte>, pos: nat)
    requires k <= |types|
    requires pos <= |buf|
    requires forall t | t in types :: !HasArray(t)
    requires SumSizes(types[..k]).Some?
    requires ParseSeq(types, k, buf, pos).Some?
    ensures SumNodes(ParseSeq(types, k, buf, pos).value) == SumSizes(types[..k]).value
    decreases MaxHeight(types), 1, k
  {
    if k > 0 {
      assert types[..k][..k - 1] == types[..k - 1];
      assert types[k - 1] in types;
      var items := ParseSeq(types, k, buf, pos).value;
      assert items[..k - 1] == ParseSeq(types, k - 1, buf, pos).value;
      SchemaSizesAreNodeCounts(types, k - 1, buf, pos);
      var loc := Locate(types[k - 1], buf, pos, pos + HeadOffset(types, k - 1));
      SchemaSizeIsNodeCount(types[k - 1], buf, loc.value);
    }
  }

  lemma {:induction false} SumSizesRepeat(inner: Type, n: nat)
    requires SchemaSize(inner).Some?
    ensures SumSizes(Repeat(inner, n)) == Some(SchemaSize(inner).value * n)
  {
    hide SchemaSize;
    var size := SchemaSize(inner).value;
    if n > 0 {
      var types := Repeat(inner, n);
      assert types[..n - 1] == Repeat(inner, n - 1);
      SumSizesRepeat(inner, n - 1);
      assert SumSizes(types) == Some(size * (n - 1) + size);
      OneMore(size, n - 1);
    }
  }

  lemma OneMore(size: int, n: int)
    ensures size * n + size == size * (n + 1)
  {
  }

  // ---------- The walk ----------

  method Spend(remaining: nat) returns (r: Result<(), AbiError>, left: nat)
    ensures r.Ok? <==> remaining >= 1
    ensures left == if remaining >= 1 then remaining - 1 else 0
    ensures r.Err? ==> r.error == ValueLimit
  {
    if remaining == 0 {
      return Err(ValueLimit), remaining;
    }
    return Ok(()), remaining - 1;
  }

  /** The first word as a `usize`. */
  function WordUsize(data: seq<Byte>): (r: Result<nat, AbiError>)
    ensures r.Ok? <==> |data| >= 32 && WordAt(data, 0) < WORD64
    ensures r.Ok? ==> r.value == WordAt(data, 0)
    ensures r.Err? ==> r.error in {TruncatedWord, LengthLimit}
  {
    if |data| < 32 then Err(TruncatedWord)
    else if ToNat(data[..32]) >= WORD64 then Err(LengthLimit)
    else Ok(ToNat(data[..32]))
  }

  /** The suffix of `raw` a component's head leads to. */
  method FollowHead(ty: Type, raw: seq<Byte>, head: nat) returns (r: Result<seq<Byte>, AbiError>)
    requires |raw| < WORD64
    ensures r.Ok? <==> Locate(ty, raw, 0, head).Some?
    ensures r.Ok? ==> r.value == raw[Locate(ty, raw, 0, head).value..]
    ensures r.Ok? ==> ParseComponent(ty, raw, 0, head) == Parse(ty, r.value, 0)
    ensures r.Err? ==> ParseComponent(ty, raw, 0, head) == None
    ensures r.Err? ==> r.error in {TruncatedHead, TruncatedWord, LengthLimit, Offset}
  {
    if head > |raw| {
      return Err(TruncatedHead);
    }
    var data := raw[head..];
    if IsDynamic(ty) {
      assert |data| >= 32 ==> data[0..32] == raw[head..head + 32];
      var offset :- WordUsize(data);
      if offset > |raw| {
        return Err(Offset);
      }
      ParseSuffix(ty, raw, offset);
      return Ok(raw[offset..]);
    }
    ParseSuffix(ty, raw, head);
    return Ok(data);
  }

  function Target(ty: Type, data: seq<Byte>, body: bool): Option<Token> {
    if body then Parse(ty, data, 0) else ParseComponent(ty, data, 0, 0)
  }

  /** The walk passes exactly the data the reference parses within the budget, and it spends one unit a token. */
  method Preflight(ty: Type, data: seq<Byte>, body: bool, nodes: nat)
      returns (r: Result<(), AbiError>, left: nat)
    requires SchemaSize(ty).Some?
    requires |data| < WORD64
    requires nodes <= MAX_NODES
    ensures r.Ok? <==>
            && |data| <= 0x100_0000
            && Target(ty, data, body).Some?
            && Nodes(Target(ty, data, body).value) <= nodes
    ensures r.Ok? ==> left == nodes - Nodes(Target(ty, data, body).value)
    ensures r.Err? ==> r.error !in {TypeLimit, Schema, Malformed, InvalidLeaf}
    decreases Height(ty), 1
  {
    r, left := Spend(nodes);
    if r.Err? {
      return;
    }
    if |data| > MAX_BYTES {
      return Err(PayloadLimit), left;
    }
    var raw := data;
    if !body && IsDynamic(ty) {
      var slice := FollowHead(ty, data, 0);
      if slice.Err? {
        return Err(slice.error), left;
      }
      raw := slice.value;
    } else {
      ParseSuffix(ty, data, 0);
      assert data[0..] == data;
    }
    r, left := PreflightBody(ty, raw, left);
  }

  /** The walk over a body whose own node is already paid for. */
  method PreflightBody(ty: Type, raw: seq<Byte>, nodes: nat) returns (r: Result<(), AbiError>, left: nat)
    requires SchemaSize(ty).Some?
    requires |raw| <= MAX_BYTES
    requires nodes <= MAX_NODES
    ensures r.Ok? <==> Parse(ty, raw, 0).Some? && Nodes(Parse(ty, raw, 0).value) <= nodes + 1
    ensures r.Ok? ==> left == nodes + 1 - Nodes(Parse(ty, raw, 0).value)
    ensures r.Err? ==> r.error !in {TypeLimit, Schema, Malformed, InvalidLeaf}
    decreases Height(ty), 0
  {
    r, left := Ok(()), nodes;
    match ty
    case Tuple(types) =>
      r, left := PreflightTuple(types, raw, left);
    case Array(inner) =>
      var count := WordUsize(raw);
      if count.Err? {
        if |raw| >= 32 {
          ManyElements(ty, raw, left + 1);
        }
        return Err(count.error), left;
      }
      ParseSeqSuffix(ElementTypes(inner, count.value), count.value, raw, 32);
      r, left := PreflightElements(inner, count.value, raw[32..], left);
    case FixedArray(inner, len) =>
      r, left := PreflightElements(inner, len, raw, left);
    case Bytes | String =>
      var len := WordUsize(raw);
      if len.Err? {
        return Err(len.error), left;
      }
      if len.value > |raw| - 32 {
        return Err(LengthLimit), left;
      }
    case _ =>
      if |raw| < 32 {
        return Err(TruncatedWord), left;
      }
  }

  lemma ManyElements(ty: Type, raw: seq<Byte>, budget: nat)
    requires ty.Array?
    requires |raw| >= 32
    requires WordAt(raw, 0) >= budget
    ensures Parse(ty, raw, 0).Some? ==> Nodes(Parse(ty, raw, 0).value) > budget
  {
  }

  /** The reference parses the components, in at most `nodes` tokens. */
  predicate Fits(types: seq<Type>, k: nat, raw: seq<Byte>, nodes: nat)
    requires k <= |types|
  {
    match ParseSeq(types, k, raw, 0)
    case None => false
    case Some(items) => SumNodes(items) <= nodes
  }

  /** Once a prefix does not fit, the whole list does not. */
  lemma PrefixDecides(types: seq<Type>, k: nat, raw: seq<Byte>, nodes: nat)
    requires k <= |types|
    requires !Fits(types, k, raw, nodes)
    ensures !Fits(types, |types|, raw, nodes)
  {
    if ParseSeq(types, k, raw, 0).None? {
      ParseSeqFails(types, k, |types|, raw, 0);
    } else if ParseSeq(types, |types|, raw, 0).Some? {
      ParseSeqPrefix(types, k, |types|, raw, 0);
      SumNodesPrefix(ParseSeq(types, |types|, raw, 0).value, k);
    }
  }

  lemma ParseSeqNext(types: seq<Type>, k: nat, raw: seq<Byte>, items: seq<Token>)
    requires k < |types|
    requires ParseSeq(types, k, raw, 0) == Some(items)
    ensures var item := ParseComponent(types[k], raw, 0, HeadOffset(types, k));
            if item.None? then ParseSeq(types, k + 1, raw, 0) == None else
            && ParseSeq(types, k + 1, raw, 0) == Some(items + [item.value])
            && SumNodes(items + [item.value]) == SumNodes(items) + Nodes(item.value)
  {
    var item := ParseComponent(types[k], raw, 0, HeadOffset(types, k));
    if item.Some? {
      assert (items + [item.value])[..k] == items;
    }
  }

  method PreflightTuple(types: seq<Type>, raw: seq<Byte>, nodes: nat) returns (r: Result<(), AbiError>, left: nat)
    requires SumSizes(types).Some? && SumSizes(types).value <= MAX_NODES
    requires |raw| <= MAX_BYTES
    requires nodes <= MAX_NODES
    ensures r.Ok? <==> Fits(types, |types|, raw, nodes)
    ensures r.Ok? ==> left == nodes - SumNodes(ParseSeq(types, |types|, raw, 0).value)
    ensures r.Err? ==> r.error !in {TypeLimit, Schema, Malformed, InvalidLeaf}
    decreases MaxHeight(types), 2
  {
    left := nodes;
    var head := 0;
    ghost var items := [];
    for i := 0 to |types|
      invariant head == HeadOffset(types, i)
      invariant ParseSeq(types, i, raw, 0) == Some(items)
      invariant left == nodes - SumNodes(items)
    {
      var ty := types[i];
      assert ty in types;
      ParseSeqNext(types, i, raw, items);
      var slice := FollowHead(ty, raw, head);
      if slice.Err? {
        PrefixDecides(types, i + 1, raw, nodes);
        return Err(slice.error), left;
      }
      r, left := Preflight(ty, slice.value, true, left);
      if r.Err? {
        PrefixDecides(types, i + 1, raw, nodes);
        return;
      }
      items := ParseSeq(types, i + 1, raw, 0).value;
      HeadOffsetBound(types, i + 1);
      assert head + HeadBytes(ty) < WORD64;
      head := head + HeadBytes(ty);
    }
    return Ok(()), left;
  }

  method PreflightElements(inner: Type, count: nat, raw: seq<Byte>, nodes: nat)
      returns (r: Result<(), AbiError>, left: nat)
    requires SchemaSize(inner).Some?
    requires |raw| <= MAX_BYTES
    requires nodes <= MAX_NODES
    ensures r.Ok? <==> Fits(ElementTypes(inner, count), count, raw, nodes)
    ensures r.Ok? ==> left == nodes - SumNodes(ParseSeq(ElementTypes(inner, count), count, raw, 0).value)
    ensures r.Err? ==> r.error !in {TypeLimit, Schema, Malformed, InvalidLeaf}
    decreases Height(inner), 2
  {
    ghost var types := ElementTypes(inner, count);
    left := nodes;
    if count > left {
      return Err(ValueLimit), left;
    }
    var width := HeadBytes(inner);
    ghost var items := [];
    for i := 0 to count
      invariant ParseSeq(types, i, raw, 0) == Some(items)
      invariant left == nodes - SumNodes(items)
    {
      ParseSeqNext(types, i, raw, items);
      HeadOffsetRepeat(inner, count, i);
      ProductInRange(i, width);
      var slice := FollowHead(inner, raw, i * width);
      if slice.Err? {
        PrefixDecides(types, i + 1, raw, nodes);
        return Err(slice.error), left;
      }
      r, left := Preflight(inner, slice.value, true, left);
      if r.Err? {
        PrefixDecides(types, i + 1, raw, nodes);
        return;
      }
      items := ParseSeq(types, i + 1, raw, 0).value;
    }
    return Ok(()), left;
  }

  lemma Products(a: nat, b: nat, width: nat)
    requires a <= b
    ensures a * width <= b * width
  {
  }

  /** The checked product of an index and an element width never overflows a `usize`. */
  lemma ProductInRange(i: nat, width: nat)
    requires i <= MAX_NODES && width <= 32 * MAX_NODES
    ensures i * width < WORD64
  {
    Products(i, MAX_NODES, width);
  }
}
