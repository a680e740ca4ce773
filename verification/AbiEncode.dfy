/**
 The reference encoder: enc, head and tail of the Solidity Contract ABI Specification, section
 "Formal Specification of the Encoding", on token trees, and the proof that the reference parser
 undoes it.
 */
module AbiEncode {
  import opened Wrappers
  import opened ByteStrings
  import opened AbiReference
  import opened AbiDecode

  /** The tree has the shape the type asks for. */
  predicate Shaped(ty: Type, token: Token)
    decreases Height(ty), 0, 0
  {
    match ty
    case Tuple(types) =>
      token.Group? && |token.items| == |types| && ShapedSeq(types, token.items, |types|)
    case FixedArray(inner, len) =>
      token.Group? && |token.items| == len && ShapedSeq(ElementTypes(inner, len), token.items, len)
    case Array(inner) =>
      token.Group? && ShapedSeq(ElementTypes(inner, |token.items|), token.items, |token.items|)
    case Bytes | String => token.Blob?
    case _ => token.Word? && |token.word| == 32
  }

  predicate ShapedSeq(types: seq<Type>, items: seq<Token>, k: nat)
    requires k <= |types| && k <= |items|
    decreases MaxHeight(types), 1, k
  {
    k == 0 ||
    (assert types[k - 1] in types;
     ShapedSeq(types, items, k - 1) && Shaped(types[k - 1], items[k - 1]))
  }

  lemma {:induction false} ShapedAt(types: seq<Type>, items: seq<Token>, k: nat, i: nat)
    requires i < k <= |types| && k <= |items|
    requires ShapedSeq(types, items, k)
    ensures Shaped(types[i], items[i])
  {
    if i < k - 1 {
      ShapedAt(types, items, k - 1, i);
    }
  }

  // ---------- Encoding ----------

  function Zeros(n: nat): (s: seq<Byte>)
    ensures |s| == n && forall i | 0 <= i < n :: s[i] == 0
  {
    seq(n, _ => 0)
  }

  function EncodeBlob(blob: seq<Byte>): seq<Byte> {
    Word32(|blob|) + blob + Zeros((32 - |blob| % 32) % 32)
  }

  function Encode(ty: Type, token: Token): seq<Byte>
    decreases Height(ty), 0, 0
  {
    match (ty, token)
    case (Tuple(types), Group(items)) => if |types| == |items| then EncodeSeq(types, items) else []
    case (FixedArray(inner, len), Group(items)) => EncodeSeq(ElementTypes(inner, |items|), items)
    case (Array(inner), Group(items)) => Word32(|items|) + EncodeSeq(ElementTypes(inner, |items|), items)
    case (_, Blob(blob)) => EncodeBlob(blob)
    case (_, Word(word)) => word
    case _ => []
  }

  function EncodeSeq(types: seq<Type>, items: seq<Token>): seq<Byte>
    requires |types| == |items|
    decreases MaxHeight(types), 2, 0
  {
    Heads(types, items, |types|) + Tails(types, items, |types|)
  }

  /** The head parts of the first `k` components; an offset counts the whole head part and the tails before it. */
  function Heads(types: seq<Type>, items: seq<Token>, k: nat): seq<Byte>
    requires k <= |types| == |items|
    decreases MaxHeight(types), 1, k, 1
  {
    if k == 0 then [] else Heads(types, items, k - 1) + HeadPart(types, items, k - 1)
  }

  function Tails(types: seq<Type>, items: seq<Token>, k: nat): seq<Byte>
    requires k <= |types| == |items|
    decreases MaxHeight(types), 1, k, 1
  {
    if k == 0 then [] else Tails(types, items, k - 1) + TailPart(types, items, k - 1)
  }

  function HeadPart(types: seq<Type>, items: seq<Token>, i: nat): seq<Byte>
    requires i < |types| == |items|
    decreases MaxHeight(types), 1, i + 1, 0
  {
    assert types[i] in types;
    if IsDynamic(types[i]) then Word32(HeadOffset(types, |types|) + |Tails(types, items, i)|)
    else Encode(types[i], items[i])
  }

  function TailPart(types: seq<Type>, items: seq<Token>, i: nat): seq<Byte>
    requires i < |types| == |items|
    decreases MaxHeight(types), 0, 1
  {
    assert types[i] in types;
    if IsDynamic(types[i]) then Encode(types[i], items[i]) else []
  }

  // ---------- Lengths ----------

  lemma {:induction false} StaticLength(ty: Type, token: Token)
    requires Shaped(ty, token)
    requires !IsDynamic(ty)
    ensures |Encode(ty, token)| == 32 * MinimumWords(ty)
    decreases Height(ty), 0, 0
  {
    match ty
    case Tuple(types) =>
      HeadsLength(types, token.items, |types|);
      StaticTails(types, token.items, |types|);
      assert types[..|types|] == types;
      StaticHeadOffset(types, |types|);
    case FixedArray(inner, len) =>
      var types := ElementTypes(inner, len);
      HeadsLength(types, token.items, len);
      StaticTails(types, token.items, len);
      HeadOffsetRepeat(inner, len, len);
      Associate(len, MinimumWords(inner), 32);
    case _ =>
  }

  lemma {:induction false} HeadsLength(types: seq<Type>, items: seq<Token>, k: nat)
    requires k <= |types| == |items|
    requires ShapedSeq(types, items, k)
    ensures |Heads(types, items, k)| == HeadOffset(types, k)
    decreases MaxHeight(types), 1, k
  {
    if k > 0 {
      assert types[k - 1] in types;
      HeadsLength(types, items, k - 1);
      if !IsDynamic(types[k - 1]) {
        StaticLength(types[k - 1], items[k - 1]);
      }
    }
  }

  lemma {:induction false} StaticTails(types: seq<Type>, items: seq<Token>, k: nat)
    requires k <= |types| == |items|
    requires forall t | t in types :: !IsDynamic(t)
    ensures Tails(types, items, k) == []
  {
    if k > 0 {
      assert types[k - 1] in types;
      StaticTails(types, items, k - 1);
    }
  }

  lemma {:induction false} StaticHeadOffset(types: seq<Type>, k: nat)
    requires k <= |types|
    requires forall t | t in types :: !IsDynamic(t)
    ensures HeadOffset(types, k) == 32 * SumWords(types[..k])
  {
    if k > 0 {
      assert types[k - 1] in types;
      assert types[..k][..k - 1] == types[..k - 1];
      StaticHeadOffset(types, k - 1);
    }
  }

  // ---------- Where a component is placed ----------

  /** Head part `i` sits right after the head parts before it. */
  lemma {:induction false} HeadPlaced(types: seq<Type>, items: seq<Token>, k: nat, i: nat, buf: seq<Byte>, pos: nat)
    requires i < k <= |types| == |items|
    requires At(buf, pos, Heads(types, items, k))
    ensures At(buf, pos + |Heads(types, items, i)|, HeadPart(types, items, i))
  {
    AtConcat(buf, pos, Heads(types, items, k - 1), HeadPart(types, items, k - 1));
    if i < k - 1 {
      HeadPlaced(types, items, k - 1, i, buf, pos);
    }
  }

  lemma {:induction false} TailPlaced(types: seq<Type>, items: seq<Token>, k: nat, i: nat, buf: seq<Byte>, pos: nat)
    requires i < k <= |types| == |items|
    requires At(buf, pos, Tails(types, items, k))
    ensures At(buf, pos + |Tails(types, items, i)|, TailPart(types, items, i))
    ensures |Tails(types, items, i)| + |TailPart(types, items, i)| <= |Tails(types, items, k)|
  {
    AtConcat(buf, pos, Tails(types, items, k - 1), TailPart(types, items, k - 1));
    if i < k - 1 {
      TailPlaced(types, items, k - 1, i, buf, pos);
    }
  }

  lemma {:induction false} HeadPartLength(types: seq<Type>, items: seq<Token>, k: nat, i: nat)
    requires i < k <= |types| == |items|
    ensures |HeadPart(types, items, i)| <= |Heads(types, items, k)|
  {
    if i < k - 1 {
      HeadPartLength(types, items, k - 1, i);
    }
  }

  lemma PartsPlaced(types: seq<Type>, items: seq<Token>, i: nat, buf: seq<Byte>, base: nat)
    requires i < |types| == |items|
    requires ShapedSeq(types, items, |types|)
    requires At(buf, base, EncodeSeq(types, items))
    ensures At(buf, base + HeadOffset(types, i), HeadPart(types, items, i))
    ensures At(buf, base + HeadOffset(types, |types|) + |Tails(types, items, i)|, TailPart(types, items, i))
    ensures |HeadPart(types, items, i)| <= |EncodeSeq(types, items)|
    ensures HeadOffset(types, |types|) + |Tails(types, items, i)| + |TailPart(types, items, i)|
            <= |EncodeSeq(types, items)|
  {
    hide At, Encode, Tails, Heads, HeadOffset;
    var n := |types|;
    AtConcat(buf, base, Heads(types, items, n), Tails(types, items, n));
    HeadsLength(types, items, n);
    ShapedPrefix(types, items, i, n);
    HeadsLength(types, items, i);
    HeadPlaced(types, items, n, i, buf, base);
    TailPlaced(types, items, n, i, buf, base + HeadOffset(types, n));
    HeadPartLength(types, items, n, i);
  }

  /** The head of component `i` leads to its encoding. */
  lemma ComponentPlaced(types: seq<Type>, items: seq<Token>, i: nat, buf: seq<Byte>, base: nat)
    requires i < |types| == |items|
    requires ShapedSeq(types, items, |types|)
    requires At(buf, base, EncodeSeq(types, items))
    requires |EncodeSeq(types, items)| < WORD64
    ensures var pos := Locate(types[i], buf, base, base + HeadOffset(types, i));
            pos.Some? && At(buf, pos.value, Encode(types[i], items[i]))
    ensures |Encode(types[i], items[i])| <= |EncodeSeq(types, items)|
  {
    hide Encode, Tails, Heads, ShapedSeq, HeadOffset;
    PartsPlaced(types, items, i, buf, base);
    if IsDynamic(types[i]) {
      var offset := HeadOffset(types, |types|) + |Tails(types, items, i)|;
      FollowOffset(types[i], offset, buf, base, base + HeadOffset(types, i));
    }
  }

  lemma FollowOffset(ty: Type, offset: nat, buf: seq<Byte>, base: nat, head: nat)
    requires IsDynamic(ty)
    requires offset < WORD64
    requires At(buf, head, Word32(offset))
    requires base + offset <= |buf|
    ensures Locate(ty, buf, base, head) == Some(base + offset)
  {
  }

  lemma {:induction false} ShapedPrefix(types: seq<Type>, items: seq<Token>, j: nat, k: nat)
    requires j <= k <= |types| && k <= |items|
    requires ShapedSeq(types, items, k)
    ensures ShapedSeq(types, items, j)
  {
    if j < k {
      ShapedPrefix(types, items, j, k - 1);
    }
  }

  // ---------- Parsing what was encoded ----------

  /** Wherever an encoding sits in a buffer, the reference parser reads its tokens there. */
  lemma {:induction false} ParseEncoded(ty: Type, token: Token, buf: seq<Byte>, pos: nat)
    requires Shaped(ty, token)
    requires At(buf, pos, Encode(ty, token))
    requires |Encode(ty, token)| < WORD64
    requires Nodes(token) < WORD64
    ensures Parse(ty, buf, pos) == Some(token)
    decreases Height(ty), 0, 0
  {
    assert token.Group? ==> token.items[..|token.items|] == token.items;
    match ty
    case Tuple(types) => ParseSeqEncoded(types, token.items, |types|, buf, pos);
    case FixedArray(inner, len) => ParseSeqEncoded(ElementTypes(inner, len), token.items, len, buf, pos);
    case Array(inner) =>
      var len := |token.items|;
      var types := ElementTypes(inner, len);
      AtConcat(buf, pos, Word32(len), EncodeSeq(types, token.items));
      ParseSeqEncoded(types, token.items, len, buf, pos + 32);
    case Bytes | String => ParseBlobEncoded(token.blob, buf, pos);
    case _ =>
  }

  lemma ParseBlobEncoded(blob: seq<Byte>, buf: seq<Byte>, pos: nat)
    requires At(buf, pos, EncodeBlob(blob))
    requires |EncodeBlob(blob)| < WORD64
    ensures Parse(Bytes, buf, pos) == Some(Blob(blob)) == Parse(String, buf, pos)
  {
    AtConcat(buf, pos, Word32(|blob|) + blob, Zeros((32 - |blob| % 32) % 32));
    AtConcat(buf, pos, Word32(|blob|), blob);
  }

  lemma {:induction false} ParseSeqEncoded(types: seq<Type>, items: seq<Token>, k: nat, buf: seq<Byte>, base: nat)
    requires k <= |types| == |items|
    requires ShapedSeq(types, items, |types|)
    requires At(buf, base, EncodeSeq(types, items))
    requires |EncodeSeq(types, items)| < WORD64
    requires SumNodes(items) < WORD64
    ensures ParseSeq(types, k, buf, base) == Some(items[..k])
    decreases MaxHeight(types), 1, k
  {
    hide Encode, EncodeSeq, Shaped, ShapedSeq, At, ParseComponent, IsDynamic;
    if k > 0 {
      assert types[k - 1] in types;
      ParseSeqEncoded(types, items, k - 1, buf, base);
      ParseComponentEncoded(types, items, k - 1, buf, base);
      assert items[..k] == items[..k - 1] + [items[k - 1]];
    }
  }

  lemma {:induction false} ParseComponentEncoded(types: seq<Type>, items: seq<Token>, i: nat, buf: seq<Byte>, base: nat)
    requires i < |types| == |items|
    requires ShapedSeq(types, items, |types|)
    requires At(buf, base, EncodeSeq(types, items))
    requires |EncodeSeq(types, items)| < WORD64
    requires SumNodes(items) < WORD64
    ensures ParseComponent(types[i], buf, base, base + HeadOffset(types, i)) == Some(items[i])
    decreases MaxHeight(types), 0, 1
  {
    assert types[i] in types;
    NodesExceed(items, i);
    ShapedAt(types, items, |types|, i);
    ComponentPlaced(types, items, i, buf, base);
    var pos := Locate(types[i], buf, base, base + HeadOffset(types, i)).value;
    ParseEncoded(types[i], items[i], buf, pos);
  }

  /** Without an outer tuple, a dynamic non-tuple gets an offset word in front. */
  function EncodeParams(ty: Type, token: Token): seq<Byte> {
    Prefixed(ty, Encode(ty, token))
  }

  lemma ParseEncodedParams(ty: Type, token: Token)
    requires Shaped(ty, token)
    requires |Encode(ty, token)| < WORD64
    requires Nodes(token) < WORD64
    ensures ParseParams(ty, EncodeParams(ty, token)) == Some(token)
  {
    var encoded := Encode(ty, token);
    PrefixedParams(ty, encoded);
    assert At(encoded, 0, encoded);
    ParseEncoded(ty, token, encoded, 0);
  }
}
