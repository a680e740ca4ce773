/**
 The encoder of values, which is not given their type: what is dynamic, and with it where the heads and
 the offsets go, is read off the value alone. On values of a type it writes what the reference encoder
 writes for the type.
 */
module AbiValues {
  import opened Wrappers
  import opened ByteStrings
  import opened AbiReference
  import opened AbiPreflight
  import opened AbiDecode
  import opened AbiEncode
  import opened AbiTerms
  import opened AbiRoundTrip

  // ---------- Dynamic values ----------

  predicate ValueIsDynamic(v: Value) {
    match v
    case BytesValue(_) | StringValue(_) | ArrayValue(_) => true
    case TupleValue(values) => exists x | x in values :: ValueIsDynamic(x)
    case FixedArrayValue(values) => exists x | x in values :: ValueIsDynamic(x)
    case _ => false
  }

  /** A value is as dynamic as its type. */
  lemma {:induction false} DynamicValue(ty: Type, v: Value)
    requires HasType(ty, v)
    ensures ValueIsDynamic(v) == IsDynamic(ty)
    decreases Height(ty), 0, 0
  {
    match ty
    case Tuple(types) =>
      DynamicValues(types, v.values);
    case FixedArray(inner, len) =>
      var types := ElementTypes(inner, len);
      DynamicValues(types, v.values);
      if len > 0 {
        assert types[0] in types;
      }
    case _ =>
  }

  lemma {:induction false} DynamicValues(types: seq<Type>, values: seq<Value>)
    requires |types| == |values|
    requires TypedSeq(types, values, |types|)
    ensures (exists x | x in values :: ValueIsDynamic(x)) <==> (exists t | t in types :: IsDynamic(t))
    decreases MaxHeight(types), 1
  {
    forall i | 0 <= i < |types|
      ensures ValueIsDynamic(values[i]) == IsDynamic(types[i])
    {
      assert types[i] in types;
      TypedAt(types, values, |types|, i);
      DynamicValue(types[i], values[i]);
    }
    if x :| x in values && ValueIsDynamic(x) {
      var i :| 0 <= i < |values| && values[i] == x;
      assert types[i] in types;
    }
    if t :| t in types && IsDynamic(t) {
      var i :| 0 <= i < |types| && types[i] == t;
      assert values[i] in values;
    }
  }

  lemma {:induction false} TypedAt(types: seq<Type>, values: seq<Value>, k: nat, i: nat)
    requires i < k <= |types| && k <= |values|
    requires TypedSeq(types, values, k)
    ensures HasType(types[i], values[i])
  {
    if i < k - 1 {
      TypedAt(types, values, k - 1, i);
    }
  }

  // ---------- Encoding ----------

  function EncodeValue(v: Value): seq<Byte>
    decreases v, 0, 0
  {
    match v
    case TupleValue(values) => EncodeValues(values)
    case FixedArrayValue(values) => EncodeValues(values)
    case ArrayValue(values) => Word32(|values|) + EncodeValues(values)
    case _ =>
      match LeafToken(v)
      case Word(word) => word
      case Blob(blob) => EncodeBlob(blob)
      case Group(_) => []
  }

  function EncodeValues(values: seq<Value>): seq<Byte>
    decreases values, |values| + 1, 0
  {
    ValueHeads(values, |values|) + ValueTails(values, |values|)
  }

  /** The width of the first `k` heads: one word for a dynamic value, and a static value itself. */
  function HeadWidth(values: seq<Value>, k: nat): nat
    requires k <= |values|
    decreases values, k, 0
  {
    if k == 0 then 0
    else HeadWidth(values, k - 1) + if ValueIsDynamic(values[k - 1]) then 32 else |EncodeValue(values[k - 1])|
  }

  function ValueTails(values: seq<Value>, k: nat): seq<Byte>
    requires k <= |values|
    decreases values, k, 0
  {
    if k == 0 then []
    else ValueTails(values, k - 1) + if ValueIsDynamic(values[k - 1]) then EncodeValue(values[k - 1]) else []
  }

  function ValueHeads(values: seq<Value>, k: nat): seq<Byte>
    requires k <= |values|
    decreases values, |values|, 1 + k
  {
    if k == 0 then []
    else
      ValueHeads(values, k - 1) +
      if ValueIsDynamic(values[k - 1]) then Word32(HeadWidth(values, |values|) + |ValueTails(values, k - 1)|)
      else EncodeValue(values[k - 1])
  }

  /** A tuple in place, and any other value as a tuple of one. */
  function EncodeValueParams(v: Value): seq<Byte> {
    if v.TupleValue? then EncodeValues(v.values) else EncodeValues([v])
  }

  // ---------- Agreement ----------

  /** The encoding of a value is the reference encoding of its tokens at any type it has. */
  lemma {:induction false} ValueEncoded(ty: Type, v: Value)
    requires HasType(ty, v)
    ensures EncodeValue(v) == Encode(ty, Tokenize(v))
    decreases Height(ty), 0, 0
  {
    if !IsLeaf(ty) {
      ValuesEncoded(ComponentTypes(ty, |v.values|), v.values);
    }
  }

  lemma {:induction false} ValuesEncoded(types: seq<Type>, values: seq<Value>)
    requires |types| == |values| && TypedSeq(types, values, |types|)
    ensures EncodeValues(values) == EncodeSeq(types, TokenizeSeq(values))
    decreases MaxHeight(types), 2
  {
    var n := |types|;
    forall i | 0 <= i < n
      ensures PartEncoded(types, values, i)
    {
      assert types[i] in types;
      TypedAt(types, values, n, i);
      ValueEncoded(types[i], values[i]);
      PartAgrees(types[i], values[i]);
      TokenizeAt(values, i);
    }
    TailsAgree(types, values, n);
    WidthsAgree(types, values, n);
    HeadsAgree(types, values, n);
  }

  /** Component `i` is encoded as at its type, as dynamic as it, and as wide as its head if it is static. */
  predicate PartEncoded(types: seq<Type>, values: seq<Value>, i: nat)
    requires i < |types| == |values|
  {
    && EncodeValue(values[i]) == Encode(types[i], TokenizeSeq(values)[i])
    && ValueIsDynamic(values[i]) == IsDynamic(types[i])
    && (!IsDynamic(types[i]) ==> |EncodeValue(values[i])| == HeadBytes(types[i]))
  }

  lemma PartAgrees(ty: Type, v: Value)
    requires HasType(ty, v) && EncodeValue(v) == Encode(ty, Tokenize(v))
    ensures ValueIsDynamic(v) == IsDynamic(ty)
    ensures !IsDynamic(ty) ==> |EncodeValue(v)| == HeadBytes(ty)
  {
    hide Encode, EncodeValue, HasType;
    DynamicValue(ty, v);
    TypedShaped(ty, v);
    if !IsDynamic(ty) {
      StaticLength(ty, Tokenize(v));
    }
  }

  lemma {:induction false} TailsAgree(types: seq<Type>, values: seq<Value>, k: nat)
    requires k <= |types| == |values|
    requires forall i | 0 <= i < |types| :: PartEncoded(types, values, i)
    ensures ValueTails(values, k) == Tails(types, TokenizeSeq(values), k)
  {
    hide Encode, EncodeValue, TokenizeSeq;
    if k > 0 {
      TailsAgree(types, values, k - 1);
      assert PartEncoded(types, values, k - 1);
    }
  }

  lemma {:induction false} WidthsAgree(types: seq<Type>, values: seq<Value>, k: nat)
    requires k <= |types| == |values|
    requires forall i | 0 <= i < |types| :: PartEncoded(types, values, i)
    ensures HeadWidth(values, k) == HeadOffset(types, k)
  {
    hide Encode, EncodeValue, TokenizeSeq;
    if k > 0 {
      WidthsAgree(types, values, k - 1);
      assert PartEncoded(types, values, k - 1);
    }
  }

  lemma {:induction false} HeadsAgree(types: seq<Type>, values: seq<Value>, k: nat)
    requires k <= |types| == |values|
    requires forall i | 0 <= i < |types| :: PartEncoded(types, values, i)
    ensures ValueHeads(values, k) == Heads(types, TokenizeSeq(values), k)
  {
    hide Encode, EncodeValue, TokenizeSeq, Tails, ValueTails, HeadWidth, HeadOffset;
    if k > 0 {
      HeadsAgree(types, values, k - 1);
      assert PartEncoded(types, values, k - 1);
      WidthsAgree(types, values, |types|);
      TailsAgree(types, values, k - 1);
    }
  }

  /** The same of a value on its own, which has an offset word exactly where the type asks for one. */
  lemma ParamsEncoded(ty: Type, v: Value)
    requires HasType(ty, v)
    ensures EncodeValueParams(v) == EncodeParams(ty, Tokenize(v))
  {
    ValueEncoded(ty, v);
    DynamicValue(ty, v);
    if !v.TupleValue? {
      SingleValue(v);
    }
  }

  lemma SingleValue(v: Value)
    ensures EncodeValues([v]) == if ValueIsDynamic(v) then Word32(32) + EncodeValue(v) else EncodeValue(v)
  {
    hide EncodeValue, ValueIsDynamic;
    var values := [v];
    assert HeadWidth(values, 0) == 0;
    assert ValueTails(values, 0) == [] == ValueHeads(values, 0);
    assert ValueIsDynamic(v) ==> HeadWidth(values, 1) == 32;
  }

  /** Encoding a value and decoding it at its type gives the value back. */
  lemma EncodeDecodes(ty: Type, v: Value, leaf: LeafDecoder)
    requires HasType(ty, v)
    requires InvertsLeaves(leaf)
    requires |EncodeValueParams(v)| < WORD64 && ValueNodes(v) < WORD64
    ensures ParseParams(ty, EncodeValueParams(v)) == Some(Tokenize(v))
    ensures ReferenceDecode(ty, EncodeValueParams(v), leaf) == Ok(v)
  {
    hide Encode, Tokenize, HasType, Parse, EncodeValueParams, Detokenize;
    ParamsEncoded(ty, v);
    TypedShaped(ty, v);
    EncodingLength(ty, v);
    ParseEncodedParams(ty, Tokenize(v));
    DetokenizeTokenized(ty, v, leaf);
  }

  lemma EncodingLength(ty: Type, v: Value)
    ensures |Encode(ty, Tokenize(v))| <= |EncodeParams(ty, Tokenize(v))|
  {
  }

  // ---------- Arrays of no elements ----------

  /** What is dynamic by the letter of the Solidity Contract ABI Specification. */
  predicate SpecDynamic(ty: Type) {
    match ty
    case Bytes | String | Array(_) => true
    case FixedArray(inner, _) => SpecDynamic(inner)
    case Tuple(types) => exists t | t in types :: SpecDynamic(t)
    case _ => false
  }

  /** Fixed arrays have elements, as the types of Solidity do. */
  predicate Inhabited(ty: Type) {
    match ty
    case FixedArray(inner, len) => len > 0 && Inhabited(inner)
    case Array(inner) => Inhabited(inner)
    case Tuple(types) => forall t | t in types :: Inhabited(t)
    case _ => true
  }

  lemma {:induction false} SpecAgrees(ty: Type)
    requires Inhabited(ty)
    ensures SpecDynamic(ty) == IsDynamic(ty)
  {
    match ty
    case Tuple(types) =>
      forall t | t in types
        ensures SpecDynamic(t) == IsDynamic(t)
      {
        SpecAgrees(t);
      }
    case FixedArray(inner, _) => SpecAgrees(inner);
    case _ =>
  }

  /** No test of values can follow the letter on arrays of no elements: they do not show their element type. */
  lemma NoValueTest(test: Value -> bool)
    ensures exists ty, v :: HasType(ty, v) && test(v) != SpecDynamic(ty)
  {
    var none := FixedArrayValue([]);
    var plain, dynamic := FixedArray(Bool, 0), FixedArray(Bytes, 0);
    assert HasType(plain, none) && HasType(dynamic, none);
    assert !SpecDynamic(plain) && SpecDynamic(dynamic);
  }
}
