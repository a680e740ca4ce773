/**
 The words and byte strings that values without components are written as, and the byte counts and
 number ranges that reading them goes by, each said of the bytes themselves.
 */
module AbiLeaves {
  import opened Wrappers
  import opened ByteStrings
  import opened SignedWords
  import opened AbiReference
  import opened AbiPreflight
  import opened AbiEncode
  import opened AbiTerms
  import opened AbiRoundTrip
  import opened AbiValues

  /** Bytes are 0 from position `k` on. */
  predicate ZeroFrom(s: seq<Byte>, k: nat) {
    forall i | k <= i < |s| :: s[i] == 0
  }

  lemma {:induction false} LeadingZeros(zeros: seq<Byte>, s: seq<Byte>)
    requires ZeroFrom(zeros, 0)
    ensures ToNat(zeros + s) == ToNat(s)
  {
    if s == [] {
      assert zeros + s == zeros;
      if zeros != [] {
        LeadingZeros(zeros[..|zeros| - 1], []);
        assert zeros[..|zeros| - 1] + [] == zeros[..|zeros| - 1];
      }
    } else {
      var front := s[..|s| - 1];
      LeadingZeros(zeros, front);
      assert (zeros + s)[..|zeros + s| - 1] == zeros + front;
    }
  }

  /** A number is its own word, and an address the word of the number its bytes stand for. */
  lemma NumberEncoding(v: Value)
    requires v.BoolValue? || v.UintValue? || v.IntValue? || v.AddressValue?
    requires v.UintValue? ==> v.number < Pow256(32)
    requires v.IntValue? ==> v.raw < Pow256(32)
    requires v.AddressValue? ==> |v.address| == 20
    ensures |EncodeValue(v)| == 32
    ensures ToNat(EncodeValue(v)) ==
            match v
            case BoolValue(flag) => if flag then 1 else 0
            case UintValue(n, _) => n
            case IntValue(raw, _) => raw
            case AddressValue(a) => ToNat(a)
            case _ => 0
    ensures v.AddressValue? ==> EncodeValue(v)[12..] == v.address
  {
    hide ToNat, Pow256;
    match v
    case UintValue(n, _) => Word32Inverse(n);
    case IntValue(raw, _) => Word32Inverse(raw);
    case AddressValue(a) =>
      LeadingZeros(Zeros(12), a);
      assert (Zeros(12) + a)[12..] == a;
    case _ =>
  }

  /** Fixed bytes and function references come first in their word, and the rest of it is 0. */
  lemma WordEncoding(ty: Type, v: Value)
    requires HasType(ty, v)
    requires v.FixedBytesValue? || v.FunctionValue?
    ensures |EncodeValue(v)| == 32
    ensures v.FunctionValue? ==> EncodeValue(v)[..24] == v.function24 && ZeroFrom(EncodeValue(v), 24)
    ensures v.FixedBytesValue? ==> EncodeValue(v) == v.word && ZeroFrom(EncodeValue(v), v.size)
  {
    if v.FixedBytesValue? {
      assert v.word == v.word[..v.size] + v.word[v.size..];
    }
  }

  /** A byte string is its length, its bytes, and as many bytes 0 as make whole words of it. */
  lemma BlobEncoding(v: Value)
    requires v.BytesValue? || v.StringValue?
    ensures var data, e := if v.BytesValue? then v.bytes else v.text, EncodeValue(v);
            && |e| % 32 == 0 && 32 + |data| <= |e| < 64 + |data|
            && (|data| < WORD64 ==> ToNat(e[..32]) == |data|)
            && e[32..32 + |data|] == data
            && ZeroFrom(e, 32 + |data|)
  {
    hide ToNat, FromNat, Pow256;
    var data := if v.BytesValue? then v.bytes else v.text;
    var pad := (32 - |data| % 32) % 32;
    PadsOut(|data|);
    Parts(Word32(|data|), data, Zeros(pad));
    assert EncodeValue(v) == EncodeBlob(data);
  }

  lemma Parts(word: seq<Byte>, data: seq<Byte>, pad: seq<Byte>)
    requires ZeroFrom(pad, 0)
    ensures (word + data + pad)[..|word|] == word
    ensures (word + data + pad)[|word|..|word| + |data|] == data
    ensures ZeroFrom(word + data + pad, |word| + |data|)
  {
  }

  lemma PadsOut(n: nat)
    ensures (n + (32 - n % 32) % 32) % 32 == 0
  {
  }

  // ---------- Reading ----------

  /** A binary for fixed bytes may be short: what is missing is read as bytes 0. */
  lemma FixedBytesRead(n: nat, data: seq<Byte>)
    ensures var r := ReadLeaf(FixedBytes(n), Binary(data));
            if |data| <= n <= 32 then
              && r.Ok? && r.value.FixedBytesValue? && r.value.size == n
              && |r.value.word| == 32 && r.value.word[..|data|] == data && ZeroFrom(r.value.word, |data|)
            else r == Err(BytesLength)
  {
  }

  lemma {:induction false} Pow2Sum(a: nat, b: nat)
    ensures Pow2(a + b) == Pow2(a) * Pow2(b)
  {
    if a > 0 {
      Pow2Sum(a - 1, b);
      Associate(2, Pow2(a - 1), Pow2(b));
    }
  }

  lemma Pow2Eight()
    ensures Pow2(8) == 256
  {
    assert Pow2(4) == 16;
  }

  /** Eight bits are a byte: the numbers of `8 k` bits are those of `k` bytes. */
  lemma {:induction false} Pow2Bytes(k: nat)
    ensures Pow2(8 * k) == Pow256(k)
  {
    if k > 0 {
      Pow2Bytes(k - 1);
      Pow2Sum(8, 8 * (k - 1));
      Pow2Eight();
    }
  }

  /** An unsigned number of whole bytes is read exactly if its big-endian bytes are enough for it. */
  lemma UintRead(k: nat, n: int)
    requires k <= 32
    ensures var r := ReadLeaf(Uint(8 * k), Integer(n));
            if 0 <= n < Pow256(k) then r == Ok(UintValue(n, 8 * k)) else r == Err(IntegerOverflow)
  {
    hide Pow2, Pow256;
    Pow2Bytes(k);
    Pow256Monotone(k, 32);
  }

  /** A signed number of whole bytes is read exactly if half the range of those bytes holds it on its side of 0. */
  lemma IntRead(k: nat, n: int)
    requires 1 <= k <= 32
    ensures var r := ReadLeaf(Int(8 * k), Integer(n));
            if 0 - Pow256(k) <= 2 * n < Pow256(k) then
              && r.Ok? && r.value.IntValue? && r.value.bits == 8 * k
              && r.value.raw == if n < 0 then n + Pow256(32) else n
            else r == Err(IntegerOverflow)
  {
    hide Pow256, SignedBytes, SignExtend;
    Pow2Bytes(k);
    var half := Pow2(8 * k - 1);
    assert Pow2(8 * k) == 2 * half;
    if -half <= n < half {
      ShortEnough(n, k);
      FromSignExtended(n, 32);
    }
  }

  lemma {:induction false} ShortEnough(n: int, k: nat)
    requires k >= 1 && 0 - Pow256(k) <= 2 * n < Pow256(k)
    ensures |SignedBytes(n)| <= k
    decreases k
  {
    hide SignedBytes;
    OneByteLess(n);
    if k > 1 && !(-128 <= n < 128) {
      assert Pow256(k) == 65536 * Pow256(k - 2);
      Halve(n / 256, n % 256, Pow256(k - 2));
      ShortEnough(n / 256, k - 1);
    }
  }

  lemma OneByteLess(n: int)
    ensures |SignedBytes(n)| == if -128 <= n < 128 then 1 else |SignedBytes(n / 256)| + 1
  {
  }

  lemma Halve(q: int, r: int, p: nat)
    requires 0 <= r < 256
    requires 0 - 65536 * p <= 2 * (256 * q + r) < 65536 * p
    ensures 0 - 256 * p <= 2 * q < 256 * p
  {
    LowDigit(q - 128 * p, r);
    LowDigit(q + 128 * p, r);
  }

  lemma LowDigit(high: int, r: int)
    requires 0 <= r < 256
    ensures 512 * high + 2 * r >= 0 <==> high >= 0
  {
  }

  // ---------- The byte budget ----------

  /** The bytes that a value's binaries hold. */
  function ValueBytes(v: Value): nat {
    match v
    case AddressValue(a) => |a|
    case FunctionValue(f) => |f|
    case FixedBytesValue(_, n) => n
    case BytesValue(bytes) => |bytes|
    case StringValue(text) => |text|
    case TupleValue(values) => SumValueBytes(values, |values|)
    case ArrayValue(values) => SumValueBytes(values, |values|)
    case FixedArrayValue(values) => SumValueBytes(values, |values|)
    case _ => 0
  }

  function SumValueBytes(values: seq<Value>, k: nat): nat
    requires k <= |values|
  {
    if k == 0 then 0 else SumValueBytes(values, k - 1) + ValueBytes(values[k - 1])
  }

  /** Reading a printed value takes exactly the bytes of its binaries from the byte budget. */
  lemma {:induction false} BudgetedBytes(ty: Type, v: Value)
    requires HasType(ty, v)
    ensures BinaryBytes(ty, ToTerm(v)) == ValueBytes(v)
    decreases Height(ty), 0, 0
  {
    if !IsLeaf(ty) {
      var terms := ToTerms(v.values);
      ElementsOfList(terms);
      assert ComponentTerms(ty, ToTerm(v)) == Some(terms);
      SumBudgetedBytes(ComponentTypes(ty, |terms|), v.values, |terms|);
    }
  }

  lemma {:induction false} SumBudgetedBytes(types: seq<Type>, values: seq<Value>, k: nat)
    requires k <= |types| == |values|
    requires TypedSeq(types, values, k)
    ensures SumBinaryBytes(types, ToTerms(values), k) == SumValueBytes(values, k)
    decreases MaxHeight(types), 1, k
  {
    hide BinaryBytes, HasType, ToTerm, ToTerms, ValueBytes;
    if k > 0 {
      assert types[k - 1] in types;
      SumBudgetedBytes(types, values, k - 1);
      BudgetedBytes(types[k - 1], values[k - 1]);
      ToTermsAt(values, k - 1);
    }
  }
}
