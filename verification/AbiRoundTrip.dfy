/**
 Terms, values, tokens and bytes are undone step by step: what is converted from a term converts
 back to it, what the reference encoder writes passes the preflight and decodes to the same value,
 and the raw forms, which leave out a value's own offset word, are each other's inverse.
 */
module AbiRoundTrip {
  import opened Wrappers
  import opened ByteStrings
  import opened SignedWords
  import Utf8
  import opened AbiReference
  import opened AbiPreflight
  import opened AbiDecode
  import opened AbiEncode
  import opened AbiTerms

  // ---------- Terms and values ----------

  lemma ReadLeafToTerm(ty: Type, v: Value)
    requires IsLeaf(ty) && LeafTyped(ty, v)
    ensures ReadLeaf(ty, ToTerm(v)) == Ok(v)
  {
    match v
    case IntValue(raw, _) =>
      var word := FromNat(raw, 32);
      SignExtendFrom(word);
      ToNatFromNat(raw, 32);
    case FixedBytesValue(word, n) =>
      assert word[..n] + word[n..] == word;
    case _ =>
  }

  /** Converting a value to a term and back gives the value. */
  lemma {:induction false} ReadsToTerm(ty: Type, v: Value)
    requires HasType(ty, v)
    ensures Reads(ty, ToTerm(v)) == Some(v)
    decreases Height(ty), 0, 0
  {
    if IsLeaf(ty) {
      ReadLeafToTerm(ty, v);
    } else {
      var terms := ToTerms(v.values);
      ElementsOfList(terms);
      assert ComponentTerms(ty, ToTerm(v)) == Some(terms);
      ReadSeqToTerms(ComponentTypes(ty, |terms|), v.values, |terms|);
      assert v.values[..|terms|] == v.values;
    }
  }

  lemma {:induction false} ReadSeqToTerms(types: seq<Type>, values: seq<Value>, k: nat)
    requires k <= |types| == |values|
    requires TypedSeq(types, values, k)
    ensures ReadSeq(types, ToTerms(values), k) == Some(values[..k])
    decreases MaxHeight(types), 1, k
  {
    hide Reads, HasType, ToTerm, ToTerms;
    if k > 0 {
      assert types[k - 1] in types;
      ReadSeqToTerms(types, values, k - 1);
      ReadsToTerm(types[k - 1], values[k - 1]);
      ToTermsAt(values, k - 1);
      assert values[..k] == values[..k - 1] + [values[k - 1]];
    }
  }

  lemma {:induction false} ToTermsAt(values: seq<Value>, i: nat)
    requires i < |values|
    ensures ToTerms(values)[i] == ToTerm(values[i])
    decreases |values|
  {
    if i < |values| - 1 {
      ToTermsAt(values[..|values| - 1], i);
    }
  }

  /** A term written the way values are printed: tuples as tuples, fixed bytes at full width. */
  predicate Canonical(ty: Type, term: Term)
    decreases Height(ty), 0, 0
  {
    match ty
    case FixedBytes(n) => term.Binary? ==> |term.data| == n
    case _ =>
      IsLeaf(ty) ||
      ((ty.Tuple? ==> term.TupleTerm?) &&
       match ComponentTerms(ty, term)
       case None => false
       case Some(terms) => CanonicalSeq(ComponentTypes(ty, |terms|), terms, |terms|))
  }

  predicate CanonicalSeq(types: seq<Type>, terms: seq<Term>, k: nat)
    requires k <= |types| && k <= |terms|
    decreases MaxHeight(types), 1, k
  {
    k == 0 ||
    (assert types[k - 1] in types;
     CanonicalSeq(types, terms, k - 1) && Canonical(types[k - 1], terms[k - 1]))
  }

  lemma ReadLeafTyped(ty: Type, term: Term)
    requires IsLeaf(ty) && ReadLeaf(ty, term).Ok?
    ensures LeafTyped(ty, ReadLeaf(ty, term).value)
    ensures ToTerm(ReadLeaf(ty, term).value) == term <==> Canonical(ty, term)
  {
    match (ty, term)
    case (Int(bits), Integer(n)) => ReadIntTyped(n, bits);
    case (FixedBytes(n), Binary(data)) =>
      var word := data + Zeros(32 - |data|);
      assert word[n..] == Zeros(32 - n);
      assert word[..n] == data + Zeros(n - |data|);
    case _ =>
  }

  lemma ReadIntTyped(n: int, bits: nat)
    requires ReadLeaf(Int(bits), Integer(n)).Ok?
    ensures LeafTyped(Int(bits), ReadLeaf(Int(bits), Integer(n)).value)
    ensures ToTerm(ReadLeaf(Int(bits), Integer(n)).value) == Integer(n)
  {
    var word := SignExtend(n, 32);
    FromNatToNat(word);
    ToNatBound(word);
    FromSignExtended(n, 32);
  }

  /** What a term is read as has the type, and prints as that term exactly when the term is canonical. */
  lemma {:induction false} ReadsTyped(ty: Type, term: Term)
    requires Reads(ty, term).Some?
    ensures HasType(ty, Reads(ty, term).value)
    ensures ToTerm(Reads(ty, term).value) == term <==> Canonical(ty, term)
    decreases Height(ty), 0, 0
  {
    hide ReadLeaf, ReadSeq, TypedSeq, CanonicalSeq, ToTerms, LeafTyped;
    if IsLeaf(ty) {
      ReadLeafTyped(ty, term);
    } else {
      var terms := ComponentTerms(ty, term).value;
      var types := ComponentTypes(ty, |terms|);
      var values := ReadSeq(types, terms, |terms|).value;
      ReadSeqTyped(types, terms, |terms|, values);
      assert values[..|terms|] == values && terms[..|terms|] == terms;
      ElementsOfList(ToTerms(values));
      if !term.TupleTerm? {
        ListOfElements(term);
      }
      assert ComponentTypes(ty, |values|) == types;
    }
  }

  lemma {:induction false} ReadSeqTyped(types: seq<Type>, terms: seq<Term>, k: nat, values: seq<Value>)
    requires k <= |types| == |terms|
    requires ReadSeq(types, terms, k) == Some(values)
    ensures TypedSeq(types, values, k)
    ensures ToTerms(values) == terms[..k] <==> CanonicalSeq(types, terms, k)
    decreases MaxHeight(types), 1, k
  {
    hide Reads, HasType, ToTerm, ToTerms, Canonical;
    if k > 0 {
      assert types[k - 1] in types;
      var before, v := values[..k - 1], values[k - 1];
      assert values == before + [v];
      ReadSeqTyped(types, terms, k - 1, before);
      ReadsTyped(types[k - 1], terms[k - 1]);
      TypedSeqExtend(types, before, values, k - 1);
      assert terms[..k] == terms[..k - 1] + [terms[k - 1]];
      ToTermsNext(before, v);
      AppendEqual(ToTerms(before), ToTerm(v), terms[..k - 1], terms[k - 1]);
    }
  }

  lemma AppendEqual<T>(a: seq<T>, x: T, b: seq<T>, y: T)
    ensures a + [x] == b + [y] <==> a == b && x == y
  {
    if a + [x] == b + [y] {
      assert (a + [x])[..|a|] == a && (b + [y])[..|b|] == b;
    }
  }

  lemma ToTermsNext(values: seq<Value>, v: Value)
    ensures ToTerms(values + [v]) == ToTerms(values) + [ToTerm(v)]
  {
    assert (values + [v])[..|values|] == values;
  }

  lemma {:induction false} TypedSeqExtend(types: seq<Type>, a: seq<Value>, b: seq<Value>, k: nat)
    requires k <= |types| && k <= |a| && a <= b
    requires TypedSeq(types, a, k)
    ensures TypedSeq(types, b, k)
  {
    if k > 0 {
      TypedSeqExtend(types, a, b, k - 1);
    }
  }

  // ---------- Values and tokens ----------

  lemma {:induction false} TokenizeAt(values: seq<Value>, i: nat)
    requires i < |values|
    ensures TokenizeSeq(values)[i] == Tokenize(values[i])
    decreases |values|
  {
    if i < |values| - 1 {
      TokenizeAt(values[..|values| - 1], i);
    }
  }

  lemma {:induction false} TypedShaped(ty: Type, v: Value)
    requires HasType(ty, v)
    ensures Shaped(ty, Tokenize(v))
    decreases Height(ty), 0, 0
  {
    if !IsLeaf(ty) {
      TypedShapedSeq(ComponentTypes(ty, |v.values|), v.values, |v.values|);
    }
  }

  lemma {:induction false} TypedShapedSeq(types: seq<Type>, values: seq<Value>, k: nat)
    requires k <= |types| == |values|
    requires TypedSeq(types, values, k)
    ensures ShapedSeq(types, TokenizeSeq(values), k)
    decreases MaxHeight(types), 1, k
  {
    hide Shaped, HasType, Tokenize, TokenizeSeq;
    if k > 0 {
      assert types[k - 1] in types;
      TypedShapedSeq(types, values, k - 1);
      TypedShaped(types[k - 1], values[k - 1]);
      TokenizeAt(values, k - 1);
    }
  }

  /** A leaf decoder that undoes the leaf encoding. */
  ghost predicate InvertsLeaves(leaf: LeafDecoder) {
    forall ty, v | IsLeaf(ty) && LeafTyped(ty, v) :: leaf(ty, LeafToken(v)) == Some(v)
  }

  lemma {:induction false} DetokenizeTokenized(ty: Type, v: Value, leaf: LeafDecoder)
    requires HasType(ty, v)
    requires InvertsLeaves(leaf)
    ensures Detokenize(ty, Tokenize(v), leaf) == Some(v)
    decreases Height(ty), 0, 0
  {
    if IsLeaf(ty) {
      assert LeafTyped(ty, v);
    } else {
      DetokenizeSeqTokenized(ComponentTypes(ty, |v.values|), v.values, |v.values|, leaf);
      assert v.values[..|v.values|] == v.values;
    }
  }

  lemma {:induction false} DetokenizeSeqTokenized(types: seq<Type>, values: seq<Value>, k: nat, leaf: LeafDecoder)
    requires k <= |types| == |values|
    requires TypedSeq(types, values, k)
    requires InvertsLeaves(leaf)
    ensures DetokenizeSeq(types, TokenizeSeq(values), k, leaf) == Some(values[..k])
    decreases MaxHeight(types), 1, k
  {
    hide Detokenize, HasType, Tokenize, TokenizeSeq;
    if k > 0 {
      assert types[k - 1] in types;
      DetokenizeSeqTokenized(types, values, k - 1, leaf);
      DetokenizeTokenized(types[k - 1], values[k - 1], leaf);
      TokenizeAt(values, k - 1);
      assert values[..k] == values[..k - 1] + [values[k - 1]];
    }
  }

  /** A decoder that accepts exactly the words the specification lets an encoder write. */
  function StrictLeaf(ty: Type, token: Token): Option<Value> {
    match (ty, token)
    case (Bool, Word(w)) =>
      if ToNat(w) == 0 then Some(BoolValue(false)) else if ToNat(w) == 1 then Some(BoolValue(true)) else None
    case (Uint(bits), Word(w)) => if ToNat(w) < Pow2(bits) then Some(UintValue(ToNat(w), bits)) else None
    case (Int(bits), Word(w)) =>
      if w != [] && InSignedRange(FromSignedBytes(w), bits) then Some(IntValue(ToNat(w), bits)) else None
    case (Address, Word(w)) => if |w| == 32 && w[..12] == Zeros(12) then Some(AddressValue(w[12..])) else None
    case (Function, Word(w)) => if |w| == 32 && w[24..] == Zeros(8) then Some(FunctionValue(w[..24])) else None
    case (FixedBytes(n), Word(w)) =>
      if n <= 32 == |w| && w[n..] == Zeros(32 - n) then Some(FixedBytesValue(w, n)) else None
    case (Bytes, Blob(b)) => Some(BytesValue(b))
    case (String, Blob(b)) => if Utf8.ValidUtf8(b) then Some(StringValue(b)) else None
    case _ => None
  }

  lemma StrictLeafInverts()
    ensures InvertsLeaves(StrictLeaf)
  {
    forall ty, v | IsLeaf(ty) && LeafTyped(ty, v)
      ensures StrictLeaf(ty, LeafToken(v)) == Some(v)
    {
      StrictLeafInvertsOne(ty, v);
    }
  }

  lemma StrictLeafInvertsOne(ty: Type, v: Value)
    requires IsLeaf(ty) && LeafTyped(ty, v)
    ensures StrictLeaf(ty, LeafToken(v)) == Some(v)
  {
    match v
    case UintValue(n, _) => Word32Inverse(n);
    case IntValue(raw, _) =>
      Word32Inverse(raw);
      FromNatToNat(Word32(raw));
    case AddressValue(a) => assert (Zeros(12) + a)[..12] == Zeros(12) && (Zeros(12) + a)[12..] == a;
    case FunctionValue(f) => assert (f + Zeros(8))[24..] == Zeros(8) && (f + Zeros(8))[..24] == f;
    case _ =>
  }
}
