/**
 The ABI types, and the reference codec of the Solidity Contract ABI Specification, section
 "Formal Specification of the Encoding". It stands for alloy's codec, which is not part of this
 model. Decoding has two steps: `Parse` follows heads, offsets and lengths by absolute positions
 in one buffer and yields a token tree; `Detokenize` turns the words and byte strings of that tree
 into values with a leaf decoder that is a parameter.
 */
module AbiReference {
  import opened Wrappers
  import opened ByteStrings

  datatype Type =
    | Bool
    | Uint(bits: nat)
    | Int(bits: nat)
    | Address
    | Function
    | FixedBytes(size: nat)
    | Bytes
    | String
    | Tuple(types: seq<Type>)
    | Array(inner: Type)
    | FixedArray(inner: Type, len: nat)

  datatype Token =
    | Word(word: seq<Byte>)
    | Blob(blob: seq<Byte>)
    | Group(items: seq<Token>)

  datatype Value =
    | BoolValue(flag: bool)
    | UintValue(number: nat, bits: nat)
    | IntValue(raw: nat, bits: nat)
    | AddressValue(address: seq<Byte>)
    | FunctionValue(function24: seq<Byte>)
    | FixedBytesValue(word: seq<Byte>, size: nat)
    | BytesValue(bytes: seq<Byte>)
    | StringValue(text: seq<Byte>)
    | TupleValue(values: seq<Value>)
    | ArrayValue(values: seq<Value>)
    | FixedArrayValue(values: seq<Value>)

  type LeafDecoder = (Type, Token) -> Option<Value>

  // ---------- Shape of a type ----------

  /**
   An array of no elements is static, whatever its element type: it has no head or tail, and a value of
   it does not show its element type. By the letter of the specification it is as dynamic as its element
   type; on types without such arrays, which are those of Solidity, this is the same definition.
   */
  predicate IsDynamic(ty: Type) {
    match ty
    case Bytes | String | Array(_) => true
    case FixedArray(inner, len) => len > 0 && IsDynamic(inner)
    case Tuple(types) => exists t | t in types :: IsDynamic(t)
    case _ => false
  }

  function MinimumWords(ty: Type): nat {
    match ty
    case Tuple(types) => SumWords(types)
    case FixedArray(inner, len) => len * MinimumWords(inner)
    case _ => 1
  }

  function SumWords(types: seq<Type>): nat {
    if types == [] then 0 else SumWords(types[..|types| - 1]) + MinimumWords(types[|types| - 1])
  }

  /** Bytes a component takes in the head part: an offset word, or its whole static encoding. */
  function HeadBytes(ty: Type): nat {
    if IsDynamic(ty) then 32 else MinimumWords(ty) * 32
  }

  function HeadOffset(types: seq<Type>, k: nat): nat
    requires k <= |types|
  {
    if k == 0 then 0 else HeadOffset(types, k - 1) + HeadBytes(types[k - 1])
  }

  function Repeat(ty: Type, n: nat): (types: seq<Type>)
    ensures |types| == n && forall i :: 0 <= i < n ==> types[i] == ty
  {
    seq(n, _ => ty)
  }

  function Height(ty: Type): nat {
    match ty
    case Tuple(types) => 1 + MaxHeight(types)
    case Array(inner) => 1 + Height(inner)
    case FixedArray(inner, _) => 1 + Height(inner)
    case _ => 0
  }

  function MaxHeight(types: seq<Type>): (h: nat)
    ensures forall t | t in types :: Height(t) <= h
    ensures if types == [] then h == 0 else exists t | t in types :: Height(t) == h
  {
    if types == [] then 0 else
      var rest := MaxHeight(types[1..]);
      assert forall t | t in types :: t == types[0] || t in types[1..];
      assert forall t | t in types[1..] :: t in types;
      if |types| > 1 && rest > Height(types[0]) then rest else
        assert types[0] in types;
        Height(types[0])
  }

  /** A `k`-element array is encoded as a tuple of `k` components of its element type. */
  function ElementTypes(inner: Type, n: nat): (types: seq<Type>)
    ensures types == Repeat(inner, n)
    ensures MaxHeight(types) <= Height(inner)
  {
    Repeat(inner, n)
  }

  // ---------- Reference parsing ----------

  function WordAt(buf: seq<Byte>, pos: nat): nat
    requires pos + 32 <= |buf|
  {
    ToNat(buf[pos..pos + 32])
  }

  /** Where the component whose head is at `head` has its body. Offsets count from `base`. */
  function Locate(ty: Type, buf: seq<Byte>, base: nat, head: nat): (pos: Option<nat>)
    ensures pos.Some? ==> pos.value <= |buf|
  {
    if !IsDynamic(ty) then
      if head <= |buf| then Some(head) else None
    else if head + 32 > |buf| then None
    else
      var pos := base + WordAt(buf, head);
      if pos <= |buf| then Some(pos) else None
  }

  function Grouped(items: Option<seq<Token>>): Option<Token> {
    match items
    case None => None
    case Some(tokens) => Some(Group(tokens))
  }

  /** The token tree of the value of type `ty` whose encoding begins at `pos`. */
  function Parse(ty: Type, buf: seq<Byte>, pos: nat): Option<Token>
    requires pos <= |buf|
    decreases Height(ty), 0, 0
  {
    match ty
    case Tuple(types) => Grouped(ParseSeq(types, |types|, buf, pos))
    case FixedArray(inner, len) => Grouped(ParseSeq(ElementTypes(inner, len), len, buf, pos))
    case Array(inner) =>
      if pos + 32 > |buf| then None else
        var len := WordAt(buf, pos);
        Grouped(ParseSeq(ElementTypes(inner, len), len, buf, pos + 32))
    case Bytes | String =>
      if pos + 32 > |buf| then None else
        var len := WordAt(buf, pos);
        if pos + 32 + len > |buf| then None else Some(Blob(buf[pos + 32..pos + 32 + len]))
    case _ => if pos + 32 > |buf| then None else Some(Word(buf[pos..pos + 32]))
  }

  /** The first `k` components of a tuple whose head part begins at `base`. */
  function ParseSeq(types: seq<Type>, k: nat, buf: seq<Byte>, base: nat): (items: Option<seq<Token>>)
    requires k <= |types|
    requires base <= |buf|
    ensures items.Some? ==> |items.value| == k
    decreases MaxHeight(types), 1, k
  {
    if k == 0 then Some([]) else
      match ParseSeq(types, k - 1, buf, base)
      case None => None
      case Some(items) =>
        assert types[k - 1] in types;
        match ParseComponent(types[k - 1], buf, base, base + HeadOffset(types, k - 1))
        case None => None
        case Some(item) => Some(items + [item])
  }

  function ParseComponent(ty: Type, buf: seq<Byte>, base: nat, head: nat): Option<Token>
    decreases Height(ty), 0, 1
  {
    match Locate(ty, buf, base, head)
    case None => None
    case Some(pos) => Parse(ty, buf, pos)
  }

  /** What a call without an outer offset decodes: a tuple in place, anything else as a one-component tuple. */
  function ParamsPosition(ty: Type, data: seq<Byte>): (pos: Option<nat>)
    ensures pos.Some? ==> pos.value <= |data|
  {
    if ty.Tuple? then Some(0) else Locate(ty, data, 0, 0)
  }

  function ParseParams(ty: Type, data: seq<Byte>): Option<Token> {
    match ParamsPosition(ty, data)
    case None => None
    case Some(pos) => Parse(ty, data, pos)
  }

  function Nodes(token: Token): (n: nat)
    ensures n >= 1
  {
    match token
    case Group(items) => 1 + SumNodes(items)
    case _ => 1
  }

  function SumNodes(items: seq<Token>): (n: nat)
    ensures n >= |items|
  {
    if items == [] then 0 else SumNodes(items[..|items| - 1]) + Nodes(items[|items| - 1])
  }

  // ---------- Detokenizing ----------

  function Detokenize(ty: Type, token: Token, leaf: LeafDecoder): Option<Value>
    decreases Height(ty), 0, 0
  {
    match ty
    case Tuple(types) =>
      if !token.Group? || |token.items| != |types| then None else
        (match DetokenizeSeq(types, token.items, |types|, leaf)
         case None => None
         case Some(values) => Some(TupleValue(values)))
    case FixedArray(inner, len) =>
      if !token.Group? || |token.items| != len then None else
        (match DetokenizeSeq(ElementTypes(inner, len), token.items, len, leaf)
         case None => None
         case Some(values) => Some(FixedArrayValue(values)))
    case Array(inner) =>
      if !token.Group? then None else
        (match DetokenizeSeq(ElementTypes(inner, |token.items|), token.items, |token.items|, leaf)
         case None => None
         case Some(values) => Some(ArrayValue(values)))
    case _ => leaf(ty, token)
  }

  function DetokenizeSeq(types: seq<Type>, items: seq<Token>, k: nat, leaf: LeafDecoder): (values: Option<seq<Value>>)
    requires k <= |types| && k <= |items|
    ensures values.Some? ==> |values.value| == k
    decreases MaxHeight(types), 1, k
  {
    if k == 0 then Some([]) else
      match DetokenizeSeq(types, items, k - 1, leaf)
      case None => None
      case Some(values) =>
        assert types[k - 1] in types;
        match Detokenize(types[k - 1], items[k - 1], leaf)
        case None => None
        case Some(value) => Some(values + [value])
  }

  // ---------- Locality of parsing ----------

  lemma WordAtShift(a: seq<Byte>, b: seq<Byte>, pos: nat)
    requires pos + 32 <= |b|
    ensures WordAt(a + b, |a| + pos) == WordAt(b, pos)
  {
    assert (a + b)[|a| + pos..|a| + pos + 32] == b[pos..pos + 32];
  }

  lemma LocateShift(ty: Type, a: seq<Byte>, b: seq<Byte>, base: nat, head: nat)
    ensures Locate(ty, a + b, |a| + base, |a| + head) ==
            match Locate(ty, b, base, head) case None => None case Some(pos) => Some(|a| + pos)
  {
    if IsDynamic(ty) && head + 32 <= |b| {
      WordAtShift(a, b, head);
    }
  }

  /** Bytes in front of the position a parse starts from do not matter. */
  lemma {:induction false} ParseShift(ty: Type, a: seq<Byte>, b: seq<Byte>, pos: nat)
    requires pos <= |b|
    ensures Parse(ty, a + b, |a| + pos) == Parse(ty, b, pos)
    decreases Height(ty), 0, 0
  {
    if pos + 32 <= |b| {
      WordAtShift(a, b, pos);
      assert (a + b)[|a| + pos..|a| + pos + 32] == b[pos..pos + 32];
    }
    match ty
    case Tuple(types) => ParseSeqShift(types, |types|, a, b, pos);
    case FixedArray(inner, len) => ParseSeqShift(ElementTypes(inner, len), len, a, b, pos);
    case Array(inner) =>
      if pos + 32 <= |b| {
        var len := WordAt(b, pos);
        ParseSeqShift(ElementTypes(inner, len), len, a, b, pos + 32);
      }
    case Bytes | String =>
      if pos + 32 <= |b| {
        var len := WordAt(b, pos);
        if pos + 32 + len <= |b| {
          assert (a + b)[|a| + pos + 32..|a| + pos + 32 + len] == b[pos + 32..pos + 32 + len];
        }
      }
    case _ =>
  }

  lemma {:induction false} ParseSeqShift(types: seq<Type>, k: nat, a: seq<Byte>, b: seq<Byte>, base: nat)
    requires k <= |types|
    requires base <= |b|
    ensures ParseSeq(types, k, a + b, |a| + base) == ParseSeq(types, k, b, base)
    decreases MaxHeight(types), 1, k
  {
    hide ParseComponent, HeadOffset;
    if k > 0 {
      ParseSeqShift(types, k - 1, a, b, base);
      var head := base + HeadOffset(types, k - 1);
      assert types[k - 1] in types;
      ParseComponentShift(types[k - 1], a, b, base, head);
      assert |a| + base + HeadOffset(types, k - 1) == |a| + head;
    }
  }

  lemma {:induction false} ParseComponentShift(ty: Type, a: seq<Byte>, b: seq<Byte>, base: nat, head: nat)
    ensures ParseComponent(ty, a + b, |a| + base, |a| + head) == ParseComponent(ty, b, base, head)
    decreases Height(ty), 0, 1
  {
    LocateShift(ty, a, b, base, head);
    var loc := Locate(ty, b, base, head);
    if loc.Some? {
      ParseShift(ty, a, b, loc.value);
    }
  }

  /** Parsing a suffix of a buffer from its start is parsing the buffer at the suffix. */
  lemma ParseSuffix(ty: Type, data: seq<Byte>, cut: nat)
    requires cut <= |data|
    ensures Parse(ty, data[cut..], 0) == Parse(ty, data, cut)
  {
    ParseShift(ty, data[..cut], data[cut..], 0);
    assert data[..cut] + data[cut..] == data;
  }

  lemma ParseSeqSuffix(types: seq<Type>, k: nat, data: seq<Byte>, cut: nat)
    requires k <= |types|
    requires cut <= |data|
    ensures ParseSeq(types, k, data[cut..], 0) == ParseSeq(types, k, data, cut)
  {
    ParseSeqShift(types, k, data[..cut], data[cut..], 0);
    assert data[..cut] + data[cut..] == data;
  }

  /** A component list that fails stays failed when it is extended. */
  lemma {:induction false} ParseSeqFails(types: seq<Type>, j: nat, k: nat, buf: seq<Byte>, base: nat)
    requires j <= k <= |types|
    requires base <= |buf|
    requires ParseSeq(types, j, buf, base) == None
    ensures ParseSeq(types, k, buf, base) == None
  {
    if j < k {
      ParseSeqFails(types, j, k - 1, buf, base);
    }
  }

  lemma {:induction false} ParseSeqPrefix(types: seq<Type>, j: nat, k: nat, buf: seq<Byte>, base: nat)
    requires j <= k <= |types|
    requires base <= |buf|
    requires ParseSeq(types, k, buf, base).Some?
    ensures ParseSeq(types, j, buf, base) == Some(ParseSeq(types, k, buf, base).value[..j])
  {
    var items := ParseSeq(types, k, buf, base).value;
    if j == k {
      assert items[..k] == items;
    } else {
      ParseSeqPrefix(types, j, k - 1, buf, base);
      assert items[..k - 1][..j] == items[..j];
    }
  }

  lemma HeadOffsetRepeat(inner: Type, n: nat, k: nat)
    requires k <= n
    ensures HeadOffset(Repeat(inner, n), k) == k * HeadBytes(inner)
  {
    if k > 0 {
      HeadOffsetRepeat(inner, n, k - 1);
    }
  }

  lemma {:induction false} SumNodesPrefix(items: seq<Token>, k: nat)
    requires k <= |items|
    ensures SumNodes(items[..k]) + |items| - k <= SumNodes(items)
  {
    if k == |items| {
      assert items[..k] == items;
    } else {
      var front := items[..|items| - 1];
      SumNodesPrefix(front, k);
      assert front[..k] == items[..k];
    }
  }
}
