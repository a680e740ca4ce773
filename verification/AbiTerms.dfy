/**
 The conversion between runtime terms and ABI values, in both directions, under the shared node
 budget and the byte budget. A list term is a chain of cells, which need not end in the empty list.
 */
module AbiTerms {
  import opened Wrappers
  import opened ByteStrings
  import opened SignedWords
  import opened Utf8
  import opened AbiReference
  import opened AbiPreflight
  import opened AbiEncode

  datatype Term =
    | Flag(flag: bool)
    | Integer(number: int)
    | Binary(data: seq<Byte>)
    | TupleTerm(terms: seq<Term>)
    | EmptyList
    | Cell(head: Term, tail: Term)
    | OtherTerm

  function Pow2(k: nat): (p: int)
    ensures p >= 1
  {
    if k == 0 then 1 else 2 * Pow2(k - 1)
  }

  /** The elements of a proper list. */
  function Elements(term: Term): Option<seq<Term>> {
    match term
    case EmptyList => Some([])
    case Cell(head, tail) => (match Elements(tail) case None => None case Some(rest) => Some([head] + rest))
    case _ => None
  }

  function ListOf(terms: seq<Term>): Term {
    if terms == [] then EmptyList else Cell(terms[0], ListOf(terms[1..]))
  }

  lemma {:induction false} ElementsOfList(terms: seq<Term>)
    ensures Elements(ListOf(terms)) == Some(terms)
  {
    if terms != [] {
      ElementsOfList(terms[1..]);
      assert [terms[0]] + terms[1..] == terms;
    }
  }

  lemma {:induction false} ListOfElements(term: Term)
    requires Elements(term).Some?
    ensures ListOf(Elements(term).value) == term
  {
    if term.Cell? {
      ListOfElements(term.tail);
      assert Elements(term).value[1..] == Elements(term.tail).value;
    }
  }

  // ---------- Typing and tokens ----------

  predicate IsLeaf(ty: Type) {
    !ty.Tuple? && !ty.Array? && !ty.FixedArray?
  }

  predicate InSignedRange(n: int, bits: nat) {
    bits >= 1 && -Pow2(bits - 1) <= n < Pow2(bits - 1)
  }

  predicate LeafTyped(ty: Type, v: Value) {
    match (ty, v)
    case (Bool, BoolValue(_)) => true
    case (Uint(bits), UintValue(n, b)) => b == bits && n < Pow2(bits) && n < Pow256(32)
    case (Int(bits), IntValue(raw, b)) =>
      b == bits && raw < Pow256(32) && InSignedRange(FromSignedBytes(FromNat(raw, 32)), bits)
    case (Address, AddressValue(a)) => |a| == 20
    case (Function, FunctionValue(f)) => |f| == 24
    case (FixedBytes(n), FixedBytesValue(word, size)) =>
      size == n <= 32 && |word| == 32 && word[n..] == Zeros(32 - n)
    case (Bytes, BytesValue(_)) => true
    case (String, StringValue(text)) => ValidUtf8(text)
    case _ => false
  }

  /** The type of each of `n` components. */
  function ComponentTypes(ty: Type, n: nat): (types: seq<Type>)
    requires !IsLeaf(ty)
    requires ty.Tuple? ==> n == |ty.types|
    ensures |types| == n && MaxHeight(types) < Height(ty)
  {
    match ty
    case Tuple(types) => types
    case Array(inner) => ElementTypes(inner, n)
    case FixedArray(inner, _) => ElementTypes(inner, n)
  }

  /** An aggregate of the kind the type asks for, with the number of components it asks for. */
  predicate Matches(ty: Type, v: Value) {
    match (ty, v)
    case (Tuple(types), TupleValue(values)) => |values| == |types|
    case (Array(_), ArrayValue(_)) => true
    case (FixedArray(_, len), FixedArrayValue(values)) => |values| == len
    case _ => false
  }

  function Aggregate(ty: Type, values: seq<Value>): (v: Value)
    requires !IsLeaf(ty)
    ensures ValueNodes(v) == 1 + SumValueNodes(values)
  {
    match ty
    case Tuple(_) => TupleValue(values)
    case Array(_) => ArrayValue(values)
    case FixedArray(_, _) => FixedArrayValue(values)
  }

  predicate HasType(ty: Type, v: Value)
    decreases Height(ty), 0, 0
  {
    if IsLeaf(ty) then LeafTyped(ty, v) else
      Matches(ty, v) && TypedSeq(ComponentTypes(ty, |v.values|), v.values, |v.values|)
  }

  predicate TypedSeq(types: seq<Type>, values: seq<Value>, k: nat)
    requires k <= |types| && k <= |values|
    decreases MaxHeight(types), 1, k
  {
    k == 0 ||
    (assert types[k - 1] in types;
     TypedSeq(types, values, k - 1) && HasType(types[k - 1], values[k - 1]))
  }

  function LeafToken(v: Value): Token {
    match v
    case BoolValue(flag) => Word(Word32(if flag then 1 else 0))
    case UintValue(n, _) => Word(Word32(n))
    case IntValue(raw, _) => Word(Word32(raw))
    case AddressValue(a) => Word(Zeros(12) + a)
    case FunctionValue(f) => Word(f + Zeros(8))
    case FixedBytesValue(word, _) => Word(word)
    case BytesValue(bytes) => Blob(bytes)
    case StringValue(text) => Blob(text)
    case _ => Group([])
  }

  function Tokenize(v: Value): Token {
    match v
    case TupleValue(values) => Group(TokenizeSeq(values))
    case ArrayValue(values) => Group(TokenizeSeq(values))
    case FixedArrayValue(values) => Group(TokenizeSeq(values))
    case _ => LeafToken(v)
  }

  function TokenizeSeq(values: seq<Value>): (items: seq<Token>)
    ensures |items| == |values|
  {
    if values == [] then [] else TokenizeSeq(values[..|values| - 1]) + [Tokenize(values[|values| - 1])]
  }

  /** The nodes of a value are counted on its token tree. */
  function ValueNodes(v: Value): nat {
    Nodes(Tokenize(v))
  }

  function SumValueNodes(values: seq<Value>): nat {
    SumNodes(TokenizeSeq(values))
  }

  lemma SumValueNodesNext(values: seq<Value>, v: Value)
    ensures SumValueNodes(values + [v]) == SumValueNodes(values) + ValueNodes(v)
  {
    assert (values + [v])[..|values|] == values;
    var items := TokenizeSeq(values + [v]);
    assert items[..|items| - 1] == TokenizeSeq(values);
  }

  // ---------- From terms ----------

  function ReadLeaf(ty: Type, term: Term): (r: Result<Value, AbiError>)
    requires IsLeaf(ty)
    ensures r.Ok? ==> ValueNodes(r.value) == 1
  {
    match (ty, term)
    case (Bool, Flag(flag)) => Ok(BoolValue(flag))
    case (Uint(bits), Integer(n)) =>
      if n < 0 || n >= Pow256(32) || n >= Pow2(bits) then Err(IntegerOverflow) else Ok(UintValue(n, bits))
    case (Int(bits), Integer(n)) =>
      if |SignedBytes(n)| > 32 || !InSignedRange(n, bits) then Err(IntegerOverflow)
      else Ok(IntValue(ToNat(SignExtend(n, 32)), bits))
    case (Address, Binary(data)) => if |data| != 20 then Err(AddressLength) else Ok(AddressValue(data))
    case (Function, Binary(data)) => if |data| != 24 then Err(FunctionLength) else Ok(FunctionValue(data))
    case (FixedBytes(n), Binary(data)) =>
      if |data| > n || n > 32 then Err(BytesLength) else Ok(FixedBytesValue(data + Zeros(32 - |data|), n))
    case (Bytes, Binary(data)) => Ok(BytesValue(data))
    case (String, Binary(data)) => if ValidUtf8(data) then Ok(StringValue(data)) else Err(InvalidUtf8)
    case _ => Err(InvalidTerm)
  }

  /** The component terms of an aggregate; a tuple may also be written as a list. */
  function ComponentTerms(ty: Type, term: Term): (terms: Option<seq<Term>>)
    requires !IsLeaf(ty)
    ensures terms.Some? && ty.Tuple? ==> |terms.value| == |ty.types|
    ensures terms.Some? && ty.FixedArray? ==> |terms.value| == ty.len
  {
    match ty
    case Tuple(types) =>
      var terms := if term.TupleTerm? then Some(term.terms) else Elements(term);
      if terms.Some? && |terms.value| != |types| then None else terms
    case Array(_) => Elements(term)
    case FixedArray(_, len) =>
      var terms := Elements(term);
      if terms.Some? && |terms.value| != len then None else terms
  }

  /** The value a term stands for, with no budget. */
  function Reads(ty: Type, term: Term): Option<Value>
    decreases Height(ty), 0, 0
  {
    if IsLeaf(ty) then
      match ReadLeaf(ty, term)
      case Ok(v) => Some(v)
      case Err(_) => None
    else
      match ComponentTerms(ty, term)
      case None => None
      case Some(terms) =>
        match ReadSeq(ComponentTypes(ty, |terms|), terms, |terms|)
        case None => None
        case Some(values) => Some(Aggregate(ty, values))
  }

  function ReadSeq(types: seq<Type>, terms: seq<Term>, k: nat): (values: Option<seq<Value>>)
    requires k <= |types| && k <= |terms|
    ensures values.Some? ==> |values.value| == k
    decreases MaxHeight(types), 1, k
  {
    if k == 0 then Some([]) else
      assert types[k - 1] in types;
      match (ReadSeq(types, terms, k - 1), Reads(types[k - 1], terms[k - 1]))
      case (Some(values), Some(v)) => Some(values + [v])
      case _ => None
  }

  function OwnBytes(term: Term): nat {
    if term.Binary? then |term.data| else 0
  }

  /** The bytes of every binary the conversion looks at. */
  function BinaryBytes(ty: Type, term: Term): nat
    decreases Height(ty), 0, 0
  {
    if IsLeaf(ty) then OwnBytes(term) else
      match ComponentTerms(ty, term)
      case None => OwnBytes(term)
      case Some(terms) => OwnBytes(term) + SumBinaryBytes(ComponentTypes(ty, |terms|), terms, |terms|)
  }

  function SumBinaryBytes(types: seq<Type>, terms: seq<Term>, k: nat): nat
    requires k <= |types| && k <= |terms|
    decreases MaxHeight(types), 1, k
  {
    if k == 0 then 0 else
      assert types[k - 1] in types;
      SumBinaryBytes(types, terms, k - 1) + BinaryBytes(types[k - 1], terms[k - 1])
  }

  method ListItems(term: Term, limit: nat) returns (r: Result<seq<Term>, AbiError>)
    ensures r.Ok? <==> Elements(term).Some? && |Elements(term).value| <= limit
    ensures r.Ok? ==> r.value == Elements(term).value
  {
    var items: seq<Term> := [];
    var rest := term;
    assert Elements(term).Some? ==> items + Elements(term).value == Elements(term).value;
    while !rest.EmptyList?
      invariant |items| <= limit
      invariant Elements(term) ==
                match Elements(rest) case None => None case Some(more) => Some(items + more)
      decreases rest
    {
      if |items| == limit {
        return Err(ValueLimit);
      }
      if !rest.Cell? {
        return Err(InvalidTerm);
      }
      ghost var more := Elements(rest.tail);
      assert more.Some? ==> items + ([rest.head] + more.value) == items + [rest.head] + more.value;
      items := items + [rest.head];
      rest := rest.tail;
    }
    return Ok(items);
  }

  /** The conversion reads exactly the terms that denote a value and fit both budgets. */
  method FromTerm(ty: Type, term: Term, remaining: nat, byteBudget: nat)
      returns (r: Result<Value, AbiError>, left: nat, bytesLeft: nat)
    requires byteBudget <= MAX_BYTES
    ensures r.Ok? <==>
            && Reads(ty, term).Some?
            && ValueNodes(Reads(ty, term).value) <= remaining
            && BinaryBytes(ty, term) <= byteBudget
    ensures r.Ok? ==>
            && Reads(ty, term) == Some(r.value)
            && left == remaining - ValueNodes(r.value)
            && bytesLeft == byteBudget - BinaryBytes(ty, term)
    ensures IsLeaf(ty) && remaining >= 1 && OwnBytes(term) <= byteBudget ==> r == ReadLeaf(ty, term)
    decreases Height(ty), 0
  {
    hide ReadLeaf, ReadSeq, SumBinaryBytes, ComponentTerms, ComponentTypes, Aggregate, ValueNodes, SumValueNodes,
        Height;
    var spent;
    spent, left := Spend(remaining);
    bytesLeft := byteBudget;
    if spent.Err? {
      return Err(spent.error), left, bytesLeft;
    }
    if OwnBytes(term) > byteBudget {
      return Err(PayloadLimit), left, bytesLeft;
    }
    bytesLeft := byteBudget - OwnBytes(term);
    if IsLeaf(ty) {
      return ReadLeaf(ty, term), left, bytesLeft;
    }
    var terms := ComponentItems(ty, term, left);
    if terms.Err? {
      if ComponentTerms(ty, term).Some? {
        ReadNodes(ComponentTypes(ty, |ComponentTerms(ty, term).value|), ComponentTerms(ty, term).value);
      }
      return Err(terms.error), left, bytesLeft;
    }
    var values;
    values, left, bytesLeft := FromTerms(ComponentTypes(ty, |terms.value|), terms.value, left, bytesLeft);
    if values.Err? {
      return Err(values.error), left, bytesLeft;
    }
    return Ok(Aggregate(ty, values.value)), left, bytesLeft;
  }

  method ComponentItems(ty: Type, term: Term, limit: nat) returns (r: Result<seq<Term>, AbiError>)
    requires !IsLeaf(ty)
    ensures r.Ok? ==> ComponentTerms(ty, term) == Some(r.value)
    ensures r.Err? && ComponentTerms(ty, term).Some? ==> |ComponentTerms(ty, term).value| > limit
  {
    if ty.Tuple? && term.TupleTerm? {
      r := Ok(term.terms);
    } else {
      r := ListItems(term, limit);
      if r.Err? {
        return;
      }
    }
    if ty.Tuple? && |r.value| != |ty.types| {
      return Err(Arity);
    }
    if ty.FixedArray? && |r.value| != ty.len {
      return Err(ArrayLength);
    }
  }

  lemma ReadNodes(types: seq<Type>, terms: seq<Term>)
    requires |types| == |terms|
    ensures var values := ReadSeq(types, terms, |terms|);
            values.Some? ==> SumValueNodes(values.value) >= |terms|
  {
  }

  method FromTerms(types: seq<Type>, terms: seq<Term>, remaining: nat, byteBudget: nat)
      returns (r: Result<seq<Value>, AbiError>, left: nat, bytesLeft: nat)
    requires |types| == |terms|
    requires byteBudget <= MAX_BYTES
    ensures var n := |terms|;
            && (r.Ok? <==>
                && ReadSeq(types, terms, n).Some?
                && SumValueNodes(ReadSeq(types, terms, n).value) <= remaining
                && SumBinaryBytes(types, terms, n) <= byteBudget)
            && (r.Ok? ==>
                && ReadSeq(types, terms, n) == Some(r.value)
                && left == remaining - SumValueNodes(r.value)
                && bytesLeft == byteBudget - SumBinaryBytes(types, terms, n))
    decreases MaxHeight(types), 1
  {
    left, bytesLeft := remaining, byteBudget;
    var values: seq<Value> := [];
    for i := 0 to |terms|
      invariant ReadSeq(types, terms, i) == Some(values)
      invariant left == remaining - SumValueNodes(values)
      invariant bytesLeft == byteBudget - SumBinaryBytes(types, terms, i)
    {
      assert types[i] in types;
      var v;
      v, left, bytesLeft := FromTerm(types[i], terms[i], left, bytesLeft);
      if v.Err? {
        TermsFail(types, terms, i, remaining, byteBudget);
        return Err(v.error), left, bytesLeft;
      }
      SumValueNodesNext(values, v.value);
      values := values + [v.value];
    }
    return Ok(values), left, bytesLeft;
  }

  predicate Readable(types: seq<Type>, terms: seq<Term>, k: nat, nodes: nat, bytes: nat)
    requires k <= |types| && k <= |terms|
  {
    && SumBinaryBytes(types, terms, k) <= bytes
    && match ReadSeq(types, terms, k)
       case None => false
       case Some(values) => SumValueNodes(values) <= nodes
  }

  /** A component that cannot be read within what its predecessors left makes the list fail. */
  lemma TermsFail(types: seq<Type>, terms: seq<Term>, i: nat, nodes: nat, bytes: nat)
    requires i < |types| == |terms|
    requires Readable(types, terms, i, nodes, bytes)
    requires var v := Reads(types[i], terms[i]);
             var before := ReadSeq(types, terms, i).value;
             || v.None?
             || SumValueNodes(before) + ValueNodes(v.value) > nodes
             || SumBinaryBytes(types, terms, i) + BinaryBytes(types[i], terms[i]) > bytes
    ensures !Readable(types, terms, |types|, nodes, bytes)
  {
    if Reads(types[i], terms[i]).Some? {
      SumValueNodesNext(ReadSeq(types, terms, i).value, Reads(types[i], terms[i]).value);
    }
    StaysUnreadable(types, terms, i + 1, |types|, nodes, bytes);
  }

  lemma {:induction false} StaysUnreadable(types: seq<Type>, terms: seq<Term>, j: nat, k: nat, nodes: nat, bytes: nat)
    requires j <= k <= |types| == |terms|
    requires !Readable(types, terms, j, nodes, bytes)
    ensures !Readable(types, terms, k, nodes, bytes)
  {
    if j < k {
      StaysUnreadable(types, terms, j, k - 1, nodes, bytes);
      var before, v := ReadSeq(types, terms, k - 1), Reads(types[k - 1], terms[k - 1]);
      if before.Some? && v.Some? {
        SumValueNodesNext(before.value, v.value);
      }
    }
  }

  // ---------- To terms ----------

  function ToTerm(v: Value): Term {
    match v
    case BoolValue(flag) => Flag(flag)
    case UintValue(n, _) => Integer(n)
    case IntValue(raw, _) => Integer(FromSignedBytes(FromNat(raw, 32)))
    case AddressValue(a) => Binary(a)
    case FunctionValue(f) => Binary(f)
    case FixedBytesValue(word, n) => Binary(if n <= |word| then word[..n] else word)
    case BytesValue(bytes) => Binary(bytes)
    case StringValue(text) => Binary(text)
    case TupleValue(values) => TupleTerm(ToTerms(values))
    case ArrayValue(values) => ListOf(ToTerms(values))
    case FixedArrayValue(values) => ListOf(ToTerms(values))
  }

  function ToTerms(values: seq<Value>): (terms: seq<Term>)
    ensures |terms| == |values|
  {
    if values == [] then [] else ToTerms(values[..|values| - 1]) + [ToTerm(values[|values| - 1])]
  }

  method ToTermBudgeted(v: Value, remaining: nat) returns (r: Result<Term, AbiError>, left: nat)
    ensures r.Ok? <==> ValueNodes(v) <= remaining
    ensures r.Ok? ==> r.value == ToTerm(v) && left == remaining - ValueNodes(v)
    ensures r.Err? ==> r.error == ValueLimit
    decreases v, 0
  {
    var spent;
    spent, left := Spend(remaining);
    if spent.Err? {
      return Err(spent.error), left;
    }
    match v
    case TupleValue(values) =>
      var terms;
      terms, left := ToTermsBudgeted(values, left);
      r := if terms.Err? then Err(terms.error) else Ok(TupleTerm(terms.value));
    case ArrayValue(values) =>
      var terms;
      terms, left := ToTermsBudgeted(values, left);
      r := if terms.Err? then Err(terms.error) else Ok(ListOf(terms.value));
    case FixedArrayValue(values) =>
      var terms;
      terms, left := ToTermsBudgeted(values, left);
      r := if terms.Err? then Err(terms.error) else Ok(ListOf(terms.value));
    case _ =>
      r := Ok(ToTerm(v));
  }

  method ToTermsBudgeted(values: seq<Value>, remaining: nat) returns (r: Result<seq<Term>, AbiError>, left: nat)
    ensures r.Ok? <==> SumValueNodes(values) <= remaining
    ensures r.Ok? ==> r.value == ToTerms(values) && left == remaining - SumValueNodes(values)
    ensures r.Err? ==> r.error == ValueLimit
    decreases values, 1
  {
    left := remaining;
    var terms: seq<Term> := [];
    for i := 0 to |values|
      invariant terms == ToTerms(values[..i])
      invariant left == remaining - SumValueNodes(values[..i])
    {
      assert values[..i + 1] == values[..i] + [values[i]];
      SumValueNodesNext(values[..i], values[i]);
      SumValueNodesPrefix(values, i + 1);
      var term;
      term, left := ToTermBudgeted(values[i], left);
      if term.Err? {
        return Err(term.error), left;
      }
      assert values[..i + 1][..i] == values[..i];
      terms := terms + [term.value];
    }
    assert values[..|values|] == values;
    return Ok(terms), left;
  }

  lemma {:induction false} SumValueNodesPrefix(values: seq<Value>, k: nat)
    requires k <= |values|
    ensures SumValueNodes(values[..k]) <= SumValueNodes(values)
  {
    if k == |values| {
      assert values[..k] == values;
    } else {
      var front, last := values[..|values| - 1], values[|values| - 1];
      assert front + [last] == values;
      SumValueNodesNext(front, last);
      SumValueNodesPrefix(front, k);
      assert front[..k] == values[..k];
    }
  }
}
