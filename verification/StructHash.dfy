/**
 hashStruct and encodeData of EIP-712, sections "Definition of hashStruct" and "Definition of
 encodeData", over finite value trees of possibly recursive types. The source remembers the hash of
 every type text it has built; the specification does not.
 */
module StructHash {
  import opened Wrappers
  import opened ByteStrings
  import opened TypeGraph
  import opened EncodeType

  datatype Data =
    | StructData(name: string, members: seq<Data>)
    | ArrayData(items: seq<Data>)
    | LeafData(value: seq<Byte>)

  /** The document's types, with the parts that belong to alloy as functions. */
  datatype Context = Context(
    types: Types,
    format: Formatter,
    resolves: Resolver,
    keccak: seq<Byte> -> seq<Byte>,
    leafWord: seq<Byte> -> Option<seq<Byte>>)

  type Cache = map<string, seq<Byte>>

  ghost predicate IsTypeHash(c: Context, name: string, hash: seq<Byte>) {
    exists text :: EncodesType(c.types, c.format, c.resolves, name, text) && hash == c.keccak(text)
  }

  /** The hash of a struct's encodeType, if it has one. */
  ghost function TypeHash(c: Context, name: string): (r: Option<seq<Byte>>)
    ensures forall hash :: IsTypeHash(c, name, hash) <==> r == Some(hash)
  {
    if text :| EncodesType(c.types, c.format, c.resolves, name, text) then
      assert forall other | EncodesType(c.types, c.format, c.resolves, name, other) :: other == text by {
        forall other | EncodesType(c.types, c.format, c.resolves, name, other)
          ensures other == text
        {
          EncodesTypeUnique(c.types, c.format, c.resolves, name, text, other);
        }
      }
      Some(c.keccak(text))
    else None
  }

  /** The word of a value: hashStruct of a struct, the hash of an array's words, a leaf's own word. */
  ghost function DataWord(c: Context, d: Data): Option<seq<Byte>>
    decreases d, 1
  {
    match d
    case StructData(name, members) =>
      (match (TypeHash(c, name), EncodeData(c, members))
       case (Some(hash), Some(encoded)) => Some(c.keccak(hash + encoded))
       case _ => None)
    case ArrayData(items) =>
      (match EncodeData(c, items)
       case Some(encoded) => Some(c.keccak(encoded))
       case None => None)
    case LeafData(value) => c.leafWord(value)
  }

  ghost function EncodeData(c: Context, ds: seq<Data>): Option<seq<Byte>>
    decreases ds, 0
  {
    if ds == [] then Some([]) else
      match (EncodeData(c, ds[..|ds| - 1]), DataWord(c, ds[|ds| - 1]))
      case (Some(encoded), Some(word)) => Some(encoded + word)
      case _ => None
  }

  ghost predicate WordSized(c: Context) {
    && (forall bytes :: |c.keccak(bytes)| == 32)
    && (forall value :: c.leafWord(value).Some? ==> |c.leafWord(value).value| == 32)
  }

  /** encodeData is one 32-byte word for each member. */
  lemma {:induction false} EncodeDataLength(c: Context, ds: seq<Data>)
    requires WordSized(c)
    requires EncodeData(c, ds).Some?
    ensures |EncodeData(c, ds).value| == 32 * |ds|
    decreases |ds|
  {
    hide DataWord, WordSized;
    if ds != [] {
      EncodeDataLength(c, ds[..|ds| - 1]);
      DataWordLength(c, ds[|ds| - 1]);
    }
  }

  lemma DataWordLength(c: Context, d: Data)
    requires WordSized(c)
    requires DataWord(c, d).Some?
    ensures |DataWord(c, d).value| == 32
  {
    hide EncodeData, TypeHash;
  }

  /** Every remembered hash is the hash of that struct's encodeType. */
  ghost predicate CacheValid(c: Context, hashes: Cache) {
    forall name | name in hashes :: TypeHash(c, name) == Some(hashes[name])
  }

  lemma {:induction false} EncodeDataFails(c: Context, ds: seq<Data>, k: nat)
    requires k < |ds|
    requires EncodeData(c, ds[..k]).None? || DataWord(c, ds[k]).None?
    ensures EncodeData(c, ds).None?
    decreases |ds|
  {
    var front := ds[..|ds| - 1];
    if k < |front| {
      assert front[..k] == ds[..k];
      EncodeDataFails(c, front, k);
    }
  }

  lemma EncodeDataNext(c: Context, ds: seq<Data>, k: nat)
    requires k < |ds|
    requires EncodeData(c, ds[..k]).Some? && DataWord(c, ds[k]).Some?
    ensures EncodeData(c, ds[..k + 1]) == Some(EncodeData(c, ds[..k]).value + DataWord(c, ds[k]).value)
  {
    assert ds[..k + 1][..k] == ds[..k];
  }

  method RecursiveEncodeData(c: Context, ds: seq<Data>, hashes: Cache)
      returns (r: Result<seq<Byte>, TypeError>, cache: Cache)
    requires CacheValid(c, hashes)
    ensures CacheValid(c, cache) && hashes.Keys <= cache.Keys
    ensures EncodeData(c, ds) == if r.Ok? then Some(r.value) else None
    decreases ds, 0
  {
    cache := hashes;
    var encoded: seq<Byte> := [];
    for i := 0 to |ds|
      invariant CacheValid(c, cache) && hashes.Keys <= cache.Keys
      invariant EncodeData(c, ds[..i]) == Some(encoded)
    {
      var word;
      word, cache := RecursiveDataWord(c, ds[i], cache);
      if word.Err? {
        EncodeDataFails(c, ds, i);
        return Err(word.error), cache;
      }
      EncodeDataNext(c, ds, i);
      encoded := encoded + word.value;
    }
    assert ds[..|ds|] == ds;
    return Ok(encoded), cache;
  }

  /** The memoised word is the specified one, and the cache stays valid. */
  method RecursiveDataWord(c: Context, d: Data, hashes: Cache)
      returns (r: Result<seq<Byte>, TypeError>, cache: Cache)
    requires CacheValid(c, hashes)
    ensures CacheValid(c, cache) && hashes.Keys <= cache.Keys
    ensures DataWord(c, d) == if r.Ok? then Some(r.value) else None
    decreases d, 1
  {
    hide EncodesType, EncodeData, TypeHash;
    cache := hashes;
    match d
    case StructData(name, members) =>
      var hash;
      if name in cache {
        hash := cache[name];
      } else {
        var text := RecursiveEncodeType(c.types, c.format, c.resolves, name);
        if text.Err? {
          return Err(text.error), cache;
        }
        hash := c.keccak(text.value);
        assert IsTypeHash(c, name, hash);
        cache := cache[name := hash];
      }
      var encoded;
      encoded, cache := RecursiveEncodeData(c, members, cache);
      if encoded.Err? {
        return Err(encoded.error), cache;
      }
      return Ok(c.keccak(hash + encoded.value)), cache;
    case ArrayData(items) =>
      var encoded;
      encoded, cache := RecursiveEncodeData(c, items, cache);
      if encoded.Err? {
        return Err(encoded.error), cache;
      }
      return Ok(c.keccak(encoded.value)), cache;
    case LeafData(value) =>
      return (match c.leafWord(value) case Some(word) => Ok(word) case None => Err(NoWord)), cache;
  }
}
