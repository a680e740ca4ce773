/**
 The raw codec. Encoding concatenates the component values of a tuple, each without the offset word
 it would carry on its own; decoding takes one chunk for each component and puts that word back.
 */
module AbiRaw {
  import opened Wrappers
  import opened ByteStrings
  import opened AbiReference
  import opened AbiPreflight
  import opened AbiDecode
  import opened AbiEncode
  import opened AbiTerms
  import opened AbiRoundTrip
  import opened AbiValues

  // ---------- Chunks ----------

  /** What the raw encoder keeps of a value's own encoding. */
  function Chunk(v: Value): seq<Byte> {
    var bytes := EncodeValueParams(v);
    if ValueIsDynamic(v) && !v.TupleValue? then
      assert |bytes| >= 32 by { SingleValue(v); }
      bytes[32..]
    else
      bytes
  }

  /** The chunk of a value is its reference encoding with no offset word, which the raw decoder puts back. */
  lemma ChunkIsEncoding(ty: Type, v: Value)
    requires HasType(ty, v)
    ensures Chunk(v) == Encode(ty, Tokenize(v))
    ensures Prefixed(ty, Chunk(v)) == EncodeValueParams(v)
  {
    DynamicValue(ty, v);
    ParamsEncoded(ty, v);
    var encoded := Encode(ty, Tokenize(v));
    assert (Word32(32) + encoded)[32..] == encoded;
  }

  function Chunks(values: seq<Value>, k: nat): seq<Byte>
    requires k <= |values|
  {
    if k == 0 then [] else Chunks(values, k - 1) + Chunk(values[k - 1])
  }

  /** Chunks are written one after another, up to the byte limit. */
  method RawEncode(ty: Type, term: Term) returns (r: Result<seq<Byte>, AbiError>)
    ensures r.Ok? <==>
            && ty.Tuple?
            && Reads(ty, term).Some?
            && ValueNodes(Reads(ty, term).value) <= 100_000
            && BinaryBytes(ty, term) <= 0x100_0000
            && |Chunks(Reads(ty, term).value.values, |ty.types|)| <= 0x100_0000
    ensures r.Ok? ==> r.value == Chunks(Reads(ty, term).value.values, |ty.types|)
  {
    hide Chunk, HasType, ValueNodes, BinaryBytes, ReadSeq, ComponentTerms;
    var v, left, bytesLeft := FromTerm(ty, term, MAX_NODES, MAX_BYTES);
    if v.Err? {
      return Err(v.error);
    }
    if !v.value.TupleValue? {
      return Err(Schema);
    }
    ReadsTyped(ty, term);
    var values := v.value.values;
    var encoded: seq<Byte> := [];
    for i := 0 to |values|
      invariant encoded == Chunks(values, i)
      invariant |encoded| <= MAX_BYTES
    {
      encoded := encoded + Chunk(values[i]);
      if |encoded| > MAX_BYTES {
        ChunksGrow(values, i + 1, |values|);
        return Err(PayloadLimit);
      }
    }
    return Ok(encoded);
  }

  lemma {:induction false} ChunksGrow(values: seq<Value>, j: nat, k: nat)
    requires j <= k <= |values|
    ensures |Chunks(values, j)| <= |Chunks(values, k)|
  {
    hide Chunk;
    if j < k {
      ChunksGrow(values, j, k - 1);
    }
  }

  // ---------- Decoding chunks ----------

  /** The chunk passes the preflight and its leaves are valid. */
  predicate ChunkDecodes(ty: Type, chunk: seq<Byte>, leaf: LeafDecoder) {
    && |Prefixed(ty, chunk)| <= MAX_BYTES
    && match Parse(ty, chunk, 0)
       case None => false
       case Some(token) => Nodes(token) <= MAX_NODES && Detokenize(ty, token, leaf).Some?
  }

  function ChunkValue(ty: Type, chunk: seq<Byte>, leaf: LeafDecoder): Value
    requires ChunkDecodes(ty, chunk, leaf)
  {
    Detokenize(ty, Parse(ty, chunk, 0).value, leaf).value
  }

  /** What decoding a chunk and printing its value take from the shared budget. */
  function ChunkCost(ty: Type, chunk: seq<Byte>, leaf: LeafDecoder): nat
    requires ChunkDecodes(ty, chunk, leaf)
  {
    Cost(ty, Parse(ty, chunk, 0).value) + ValueNodes(ChunkValue(ty, chunk, leaf))
  }

  /** The values of the first `k` chunks, and what they cost, if every one of them decodes. */
  function DecodedChunks(types: seq<Type>, chunks: seq<seq<Byte>>, leaf: LeafDecoder, k: nat)
      : (r: Option<(seq<Term>, nat)>)
    requires k <= |types| && k <= |chunks|
    ensures r.Some? ==> |r.value.0| == k
  {
    if k == 0 then Some(([], 0)) else
      match DecodedChunks(types, chunks, leaf, k - 1)
      case None => None
      case Some((terms, cost)) =>
        if !ChunkDecodes(types[k - 1], chunks[k - 1], leaf) then None else
          Some((terms + [ToTerm(ChunkValue(types[k - 1], chunks[k - 1], leaf))],
                cost + ChunkCost(types[k - 1], chunks[k - 1], leaf)))
  }

  predicate Affordable(types: seq<Type>, chunks: seq<seq<Byte>>, leaf: LeafDecoder, k: nat)
    requires k <= |types| && k <= |chunks|
  {
    match DecodedChunks(types, chunks, leaf, k)
    case None => false
    case Some((_, cost)) => cost <= MAX_NODES
  }

  lemma {:induction false} StaysUnaffordable(types: seq<Type>, chunks: seq<seq<Byte>>, leaf: LeafDecoder, j: nat,
      k: nat)
    requires j <= k <= |types| && k <= |chunks|
    requires !Affordable(types, chunks, leaf, j)
    ensures !Affordable(types, chunks, leaf, k)
  {
    if j < k {
      StaysUnaffordable(types, chunks, leaf, j, k - 1);
    }
  }

  function TotalLength(chunks: seq<seq<Byte>>): nat {
    if chunks == [] then 0 else TotalLength(chunks[..|chunks| - 1]) + |chunks[|chunks| - 1]|
  }

  /** One chunk: preflight, decode, print. */
  method DecodeChunk(ty: Type, chunk: seq<Byte>, leaf: LeafDecoder, remaining: nat)
      returns (r: Result<Term, AbiError>, left: nat)
    requires SchemaSize(ty).Some?
    requires |chunk| <= MAX_BYTES
    requires remaining <= MAX_NODES
    ensures r.Ok? <==> ChunkDecodes(ty, chunk, leaf) && ChunkCost(ty, chunk, leaf) <= remaining
    ensures r.Ok? ==> r.value == ToTerm(ChunkValue(ty, chunk, leaf)) && left == remaining - ChunkCost(ty, chunk, leaf)
    ensures left <= remaining
  {
    left := remaining;
    var data := Prefixed(ty, chunk);
    PrefixedParams(ty, chunk);
    assert Target(ty, data, ty.Tuple?) == ParseParams(ty, data);
    var checked, unused := Preflight(ty, data, ty.Tuple?, MAX_NODES);
    if checked.Err? {
      return Err(checked.error), left;
    }
    var decoded;
    decoded, left := DecodeCompatible(ty, data, leaf, remaining);
    if decoded.Err? {
      return Err(decoded.error), left;
    }
    r, left := ToTermBudgeted(decoded.value, left);
    if r.Err? {
      left := 0;
    }
  }

  method RawDecode(ty: Type, chunks: seq<seq<Byte>>, leaf: LeafDecoder) returns (r: Result<seq<Term>, AbiError>)
    requires SchemaSize(ty).Some?
    ensures r.Ok? <==>
            && ty.Tuple?
            && |chunks| == |ty.types|
            && TotalLength(chunks) <= 0x100_0000
            && Affordable(ty.types, chunks, leaf, |chunks|)
    ensures r.Ok? ==> r.value == DecodedChunks(ty.types, chunks, leaf, |chunks|).value.0
  {
    hide ChunkDecodes, ChunkValue, ChunkCost, ToTerm, Prefixed;
    if !ty.Tuple? {
      return Err(Schema);
    }
    if |chunks| > |ty.types| {
      return Err(ValueLimit);
    }
    if TotalLength(chunks) > MAX_BYTES {
      return Err(PayloadLimit);
    }
    if |ty.types| != |chunks| {
      return Err(Arity);
    }
    var remaining: nat := MAX_NODES;
    var terms: seq<Term> := [];
    for i := 0 to |chunks|
      invariant remaining <= MAX_NODES
      invariant DecodedChunks(ty.types, chunks, leaf, i) == Some((terms, MAX_NODES - remaining))
    {
      assert ty.types[i] in ty.types;
      ChunkLength(chunks, i);
      var term;
      term, remaining := DecodeChunk(ty.types[i], chunks[i], leaf, remaining);
      if term.Err? {
        StaysUnaffordable(ty.types, chunks, leaf, i + 1, |chunks|);
        return Err(term.error);
      }
      terms := terms + [term.value];
    }
    return Ok(terms);
  }

  lemma {:induction false} ChunkLength(chunks: seq<seq<Byte>>, i: nat)
    requires i < |chunks|
    ensures |chunks[i]| <= TotalLength(chunks)
    decreases |chunks|
  {
    if i < |chunks| - 1 {
      ChunkLength(chunks[..|chunks| - 1], i);
    }
  }

  // ---------- What a caller gets ----------

  /** What decoding the chunk of a value and printing it take from the shared budget. */
  function ValueCost(ty: Type, v: Value): nat {
    Cost(ty, Tokenize(v)) + ValueNodes(v)
  }

  lemma ChunkParses(ty: Type, v: Value)
    requires HasType(ty, v)
    requires |Chunk(v)| < WORD64 && ValueNodes(v) < WORD64
    ensures Parse(ty, Chunk(v), 0) == Some(Tokenize(v))
  {
    ChunkIsEncoding(ty, v);
    TypedShaped(ty, v);
    ParseEncodedParams(ty, Tokenize(v));
    PrefixedParams(ty, Chunk(v));
  }

  /** The value's own encoding is within the byte limit, and the value is within the node limit. */
  predicate ChunkFits(v: Value) {
    |EncodeValueParams(v)| <= MAX_BYTES && ValueNodes(v) <= MAX_NODES
  }

  /** The chunk of a typed value decodes to that value exactly if it is within both limits, at the value's own cost. */
  lemma ChunkRoundTrip(ty: Type, v: Value, leaf: LeafDecoder)
    requires HasType(ty, v)
    requires InvertsLeaves(leaf)
    requires ValueNodes(v) < WORD64
    ensures ChunkDecodes(ty, Chunk(v), leaf) <==> ChunkFits(v)
    ensures ChunkFits(v) ==>
              && Parse(ty, Chunk(v), 0) == Some(Tokenize(v))
              && ChunkValue(ty, Chunk(v), leaf) == v
              && ChunkCost(ty, Chunk(v), leaf) == ValueCost(ty, v)
  {
    ChunkIsEncoding(ty, v);
    if |EncodeValueParams(v)| <= MAX_BYTES {
      ChunkParses(ty, v);
      DetokenizeTokenized(ty, v, leaf);
    }
  }

  /** A term comes back from its own chunk, exactly if it is canonical and the chunk is within both limits. */
  lemma TermRoundTrip(ty: Type, term: Term, leaf: LeafDecoder)
    requires Reads(ty, term).Some?
    requires InvertsLeaves(leaf)
    requires ValueNodes(Reads(ty, term).value) < WORD64
    ensures var v := Reads(ty, term).value;
            ChunkDecodes(ty, Chunk(v), leaf) && ToTerm(ChunkValue(ty, Chunk(v), leaf)) == term <==>
            ChunkFits(v) && Canonical(ty, term)
  {
    ReadsTyped(ty, term);
    ChunkRoundTrip(ty, Reads(ty, term).value, leaf);
  }

  function ChunkList(values: seq<Value>): (chunks: seq<seq<Byte>>)
    ensures |chunks| == |values| && forall i | 0 <= i < |values| :: chunks[i] == Chunk(values[i])
  {
    seq(|values|, i requires 0 <= i < |values| => Chunk(values[i]))
  }

  function TotalCost(types: seq<Type>, values: seq<Value>, k: nat): nat
    requires k <= |types| && k <= |values|
  {
    if k == 0 then 0 else TotalCost(types, values, k - 1) + ValueCost(types[k - 1], values[k - 1])
  }

  predicate ChunksFit(values: seq<Value>, k: nat)
    requires k <= |values|
  {
    forall i | 0 <= i < k :: ChunkFits(values[i])
  }

  /** The first `k` chunks decode exactly if all fit, to the terms of their values and at the cost of the values. */
  lemma {:induction false} ChunksRoundTrip(types: seq<Type>, values: seq<Value>, leaf: LeafDecoder, k: nat)
    requires k <= |types| == |values|
    requires TypedSeq(types, values, k)
    requires forall i | 0 <= i < k :: ValueNodes(values[i]) < WORD64
    requires InvertsLeaves(leaf)
    ensures DecodedChunks(types, ChunkList(values), leaf, k) ==
            if ChunksFit(values, k) then Some((ToTerms(values[..k]), TotalCost(types, values, k))) else None
  {
    hide Chunk, ChunkDecodes, ChunkValue, ChunkCost, HasType, ToTerm, ToTerms, Cost, ValueNodes, ValueCost;
    hide ChunkFits, ChunksFit, InvertsLeaves, DecodedChunks, TypedSeq;
    DecodedNext(types, ChunkList(values), leaf, k);
    FitNext(values, k);
    if k == 0 {
      assert values[..0] == [];
      NoTerms();
    } else {
      var before, v := values[..k - 1], values[k - 1];
      assert values[..k] == before + [v];
      ToTermsNext(before, v);
      TypedNext(types, values, k);
      ChunksRoundTrip(types, values, leaf, k - 1);
      ChunkRoundTrip(types[k - 1], v, leaf);
    }
  }

  lemma DecodedNext(types: seq<Type>, chunks: seq<seq<Byte>>, leaf: LeafDecoder, k: nat)
    requires k <= |types| && k <= |chunks|
    ensures k == 0 ==> DecodedChunks(types, chunks, leaf, k) == Some(([], 0))
    ensures k > 0 ==>
              var before := DecodedChunks(types, chunks, leaf, k - 1);
              DecodedChunks(types, chunks, leaf, k) ==
              if before.None? || !ChunkDecodes(types[k - 1], chunks[k - 1], leaf) then None else
                Some((before.value.0 + [ToTerm(ChunkValue(types[k - 1], chunks[k - 1], leaf))],
                      before.value.1 + ChunkCost(types[k - 1], chunks[k - 1], leaf)))
  {
    hide ChunkDecodes, ChunkValue, ChunkCost, ToTerm;
  }

  lemma FitNext(values: seq<Value>, k: nat)
    requires k <= |values|
    ensures ChunksFit(values, k) <==> k == 0 || (ChunksFit(values, k - 1) && ChunkFits(values[k - 1]))
  {
  }

  lemma TypedNext(types: seq<Type>, values: seq<Value>, k: nat)
    requires 0 < k <= |types| && k <= |values|
    requires TypedSeq(types, values, k)
    ensures TypedSeq(types, values, k - 1) && HasType(types[k - 1], values[k - 1])
  {
  }

  lemma NoTerms()
    ensures ToTerms([]) == []
  {
  }

  /**
   Raw decoding what raw encoding writes for the components of a tuple succeeds exactly within the
   limits: all bytes, each value's own encoding, and the cost of all values. It then gives back the
   terms of the values.
   */
  lemma RawRoundTrip(types: seq<Type>, values: seq<Value>, leaf: LeafDecoder)
    requires |types| == |values|
    requires TypedSeq(types, values, |types|)
    requires forall i | 0 <= i < |types| :: ValueNodes(values[i]) < WORD64
    requires InvertsLeaves(leaf)
    ensures var n := |types|;
            var chunks := ChunkList(values);
            && TotalLength(chunks) == |Chunks(values, n)|
            && (TotalLength(chunks) <= MAX_BYTES && Affordable(types, chunks, leaf, n) <==>
                && |Chunks(values, n)| <= MAX_BYTES
                && ChunksFit(values, n)
                && TotalCost(types, values, n) <= MAX_NODES)
            && (Affordable(types, chunks, leaf, n) ==>
                DecodedChunks(types, chunks, leaf, n) == Some((ToTerms(values), TotalCost(types, values, n))))
  {
    hide Chunks, ChunksFit, TotalCost, DecodedChunks, TypedSeq;
    ChunksLength(values, |values|);
    ChunksRoundTrip(types, values, leaf, |types|);
    assert values[..|types|] == values;
    assert ChunkList(values)[..|types|] == ChunkList(values);
  }

  lemma {:induction false} ChunksLength(values: seq<Value>, k: nat)
    requires k <= |values|
    ensures TotalLength(ChunkList(values)[..k]) == |Chunks(values, k)|
  {
    hide Chunk;
    if k > 0 {
      var chunks := ChunkList(values);
      assert chunks[..k][..k - 1] == chunks[..k - 1];
      ChunksLength(values, k - 1);
    }
  }
}
