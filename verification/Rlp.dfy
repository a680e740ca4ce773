/**
 Recursive length prefix, as defined in Appendix B of the Yellow Paper: the printer, byte by byte as
 the source writes it, and a reference reader. A header the reader accepts is a canonical one; it
 stands for the header decoder of alloy, which is not part of this model.
 */
module Rlp {
  import opened Wrappers
  import opened ByteStrings

  datatype Tree = Str(bytes: seq<Byte>) | List(items: seq<Tree>)

  /** One framed item; the payload of a list is not looked into. */
  datatype Item = Item(list: bool, payload: seq<Byte>)

  datatype Header = Header(list: bool, size: nat, length: nat)

  /** Big-endian bytes with no leading zero. */
  function BigEndian(n: nat): (s: seq<Byte>)
    ensures n == 0 <==> s == []
    ensures s != [] ==> s[0] != 0
  {
    if n == 0 then [] else BigEndian(n / 256) + [n % 256]
  }

  lemma {:induction false} BigEndianValue(n: nat)
    ensures ToNat(BigEndian(n)) == n
  {
    if n > 0 {
      var s := BigEndian(n);
      BigEndianValue(n / 256);
      assert s[..|s| - 1] == BigEndian(n / 256);
    }
  }

  lemma {:induction false} BigEndianUnique(s: seq<Byte>)
    requires s != [] ==> s[0] != 0
    ensures BigEndian(ToNat(s)) == s
  {
    if s != [] {
      var front := s[..|s| - 1];
      BigEndianUnique(front);
      assert ToNat(s) / 256 == ToNat(front) && ToNat(s) % 256 == s[|s| - 1];
      if front == [] {
        assert ToNat(front) == 0;
      }
    }
  }

  lemma {:induction false} BigEndianLength(n: nat, k: nat)
    requires n < Pow256(k)
    ensures |BigEndian(n)| <= k
  {
    if n > 0 {
      BigEndianLength(n / 256, k - 1);
    }
  }

  function HeaderBytes(list: bool, length: nat): (s: seq<Byte>)
    requires length < WORD64
    ensures s != []
  {
    if length <= 55 then [(if list then 0xc0 else 0x80) + length]
    else
      Pow256At8();
      BigEndianLength(length, 8);
      [(if list then 0xf7 else 0xb7) + |BigEndian(length)|] + BigEndian(length)
  }

  function Frame(item: Item): (s: seq<Byte>)
    requires |item.payload| < WORD64
    ensures s != []
  {
    if !item.list && |item.payload| == 1 && item.payload[0] < 0x80 then item.payload
    else HeaderBytes(item.list, |item.payload|) + item.payload
  }

  // ---------- The printer ----------

  method RlpLenBytes(length: nat) returns (bytes: seq<Byte>)
    requires length < WORD64
    ensures bytes == BigEndian(length)
  {
    Pow256At8();
    bytes := FromNat(length, 8);
    ToNatFromNat(length, 8);
    while bytes != [] && bytes[0] == 0
      invariant ToNat(bytes) == length
      decreases |bytes|
    {
      DropZero(bytes);
      bytes := bytes[1..];
    }
    BigEndianUnique(bytes);
  }

  lemma {:induction false} DropZero(s: seq<Byte>)
    requires s != [] && s[0] == 0
    ensures ToNat(s[1..]) == ToNat(s)
  {
    if |s| > 1 {
      DropZero(s[..|s| - 1]);
      assert s[..|s| - 1][1..] == s[1..][..|s| - 2];
    }
  }

  method RlpHeader(shortOffset: nat, longOffset: nat, length: nat) returns (header: seq<Byte>)
    requires (shortOffset, longOffset) in {(0x80, 0xb7), (0xc0, 0xf7)}
    requires length < WORD64
    ensures header == HeaderBytes(shortOffset == 0xc0, length)
  {
    if length <= 55 {
      return [shortOffset + length];
    }
    var bytes := RlpLenBytes(length);
    Pow256At8();
    BigEndianLength(length, 8);
    header := [longOffset + |bytes|];
    header := header + bytes;
  }

  method RlpBytes(bytes: seq<Byte>) returns (encoded: seq<Byte>)
    requires |bytes| < WORD64
    ensures encoded == Encode(Str(bytes))
  {
    if |bytes| == 1 && bytes[0] < 0x80 {
      return bytes;
    }
    encoded := RlpHeader(0x80, 0xb7, |bytes|);
    encoded := encoded + bytes;
  }

  function Concat(parts: seq<seq<Byte>>): seq<Byte> {
    if parts == [] then [] else Concat(parts[..|parts| - 1]) + parts[|parts| - 1]
  }

  method RlpList(items: seq<seq<Byte>>) returns (encoded: seq<Byte>)
    requires |Concat(items)| < WORD64
    ensures encoded == Frame(Item(true, Concat(items)))
  {
    var length := 0;
    for i := 0 to |items|
      invariant length == |Concat(items[..i])|
    {
      assert items[..i + 1][..i] == items[..i];
      length := length + |items[i]|;
    }
    assert items[..|items|] == items;
    var header := RlpHeader(0xc0, 0xf7, length);
    encoded := header;
    for i := 0 to |items|
      invariant encoded == header + Concat(items[..i])
    {
      assert items[..i + 1][..i] == items[..i];
      encoded := encoded + items[i];
    }
  }

  // ---------- Trees ----------

  /** A tree's encoding, as long as its lengths are `usize` values. */
  function Encode(t: Tree): seq<Byte>
    decreases t, 1
  {
    match t
    case Str(bytes) => if |bytes| < WORD64 then Frame(Item(false, bytes)) else []
    case List(items) =>
      var payload := EncodeAll(items);
      if |payload| < WORD64 then Frame(Item(true, payload)) else []
  }

  function EncodeAll(ts: seq<Tree>): seq<Byte>
    decreases ts, 0
  {
    if ts == [] then [] else Encode(ts[0]) + EncodeAll(ts[1..])
  }

  /** Every length in the tree is a `usize` value. */
  predicate Sized(t: Tree)
    decreases t, 1
  {
    match t
    case Str(bytes) => |bytes| < WORD64
    case List(items) => SizedAll(items) && |EncodeAll(items)| < WORD64
  }

  predicate SizedAll(ts: seq<Tree>)
    decreases ts, 0
  {
    ts == [] || (Sized(ts[0]) && SizedAll(ts[1..]))
  }

  // ---------- The reader ----------

  function DecodeHeader(input: seq<Byte>): (h: Option<Header>)
    ensures h.Some? ==> h.value.size <= |input| && h.value.length < WORD64
    ensures h.Some? && h.value.list ==> h.value.size >= 1
    ensures h.Some? ==> h.value.size + h.value.length >= 1
  {
    if input == [] then None
    else
      var b := input[0];
      if b < 0x80 then Some(Header(false, 0, 1))
      else if b <= 0xb7 then
        if b == 0x81 && (|input| < 2 || input[1] < 0x80) then None else Some(Header(false, 1, b - 0x80))
      else if b <= 0xbf then LongHeader(false, input, b - 0xb7)
      else if b <= 0xf7 then Some(Header(true, 1, b - 0xc0))
      else LongHeader(true, input, b - 0xf7)
  }

  function LongHeader(list: bool, input: seq<Byte>, k: nat): (h: Option<Header>)
    requires 1 <= k <= 8
    ensures h.Some? ==> h.value.size == 1 + k <= |input| && h.value.length < WORD64
    ensures h.Some? ==> h.value.list == list
  {
    if 1 + k > |input| || input[1] == 0 then None
    else
      var bytes := input[1..1 + k];
      ToNatBound(bytes);
      Pow256Monotone(k, 8);
      Pow256At8();
      if ToNat(bytes) <= 55 then None else Some(Header(list, 1 + k, ToNat(bytes)))
  }

  /** The first item of the input, and what follows it. */
  function Unframe(input: seq<Byte>): (r: Option<(Item, seq<Byte>)>)
    ensures r.Some? ==> |r.value.1| < |input| && |r.value.0.payload| <= |input|
    ensures r.Some? ==> |r.value.0.payload| < WORD64
    ensures r.Some? && r.value.0.list ==> |r.value.0.payload| < |input|
  {
    match DecodeHeader(input)
    case None => None
    case Some(Header(list, size, length)) =>
      if size + length > |input| then None
      else Some((Item(list, input[size..size + length]), input[size + length..]))
  }

  lemma HeaderRoundTrip(list: bool, length: nat, rest: seq<Byte>)
    requires length < WORD64
    requires length == 1 && !list ==> rest != [] && rest[0] >= 0x80
    ensures DecodeHeader(HeaderBytes(list, length) + rest) == Some(Header(list, |HeaderBytes(list, length)|, length))
  {
    var input := HeaderBytes(list, length) + rest;
    if length > 55 {
      var bytes := BigEndian(length);
      Pow256At8();
      BigEndianLength(length, 8);
      BigEndianValue(length);
      assert input[1..1 + |bytes|] == bytes;
      assert input[1] == bytes[0];
    }
  }

  /** Reading one framed item gives the item and leaves the rest. */
  lemma UnframeFrame(item: Item, rest: seq<Byte>)
    requires |item.payload| < WORD64
    ensures Unframe(Frame(item) + rest) == Some((item, rest))
  {
    var input := Frame(item) + rest;
    if !item.list && |item.payload| == 1 && item.payload[0] < 0x80 {
      assert input[0..1] == item.payload && input[1..] == rest;
    } else {
      var header := HeaderBytes(item.list, |item.payload|);
      assert input == header + (item.payload + rest);
      HeaderRoundTrip(item.list, |item.payload|, item.payload + rest);
      assert input[|header|..|header| + |item.payload|] == item.payload;
      assert input[|header| + |item.payload|..] == rest;
    }
  }

  /** Whatever is read as an item is the framing of that item. */
  lemma FrameUnframe(input: seq<Byte>)
    requires Unframe(input).Some?
    ensures var (item, rest) := Unframe(input).value; Frame(item) + rest == input
  {
    var h := DecodeHeader(input).value;
    var (item, rest) := Unframe(input).value;
    if h.size == 0 {
      assert item.payload == [input[0]];
    } else {
      HeaderUnique(input);
      assert input == input[..h.size] + item.payload + rest;
    }
  }

  lemma HeaderUnique(input: seq<Byte>)
    requires DecodeHeader(input).Some?
    ensures var h := DecodeHeader(input).value;
            && (h.size == 0 ==> !h.list && h.length == 1 && input[0] < 0x80)
            && (h.size > 0 ==> input[..h.size] == HeaderBytes(h.list, h.length))
            && (h.size > 0 && !h.list && h.length == 1 ==> |input| > 1 && h.size == 1 && input[1] >= 0x80)
  {
    var h := DecodeHeader(input).value;
    if h.size > 1 {
      var bytes := input[1..h.size];
      BigEndianUnique(bytes);
      assert input[..h.size] == [input[0]] + bytes;
    }
  }

  /** All items of the input, lists included; nothing may be left over. */
  function ParseAll(input: seq<Byte>): Option<seq<Tree>>
    decreases |input|
  {
    if input == [] then Some([]) else
      match Unframe(input)
      case None => None
      case Some((item, rest)) =>
        match (ParseItem(item, |input|), ParseAll(rest))
        case (Some(t), Some(ts)) => Some([t] + ts)
        case _ => None
  }

  function ParseItem(item: Item, bound: nat): Option<Tree>
    requires item.list ==> |item.payload| < bound
    decreases bound, 0
  {
    if !item.list then Some(Str(item.payload)) else
      match ParseAll(item.payload)
      case None => None
      case Some(items) => Some(List(items))
  }

  /** Parsing an encoding gives back the trees, with nothing left over. */
  lemma {:induction false} ParseEncodeAll(ts: seq<Tree>)
    requires SizedAll(ts)
    ensures ParseAll(EncodeAll(ts)) == Some(ts)
    decreases ts, 0
  {
    if ts != [] {
      var item := ItemOf(ts[0]);
      var rest := EncodeAll(ts[1..]);
      UnframeFrame(item, rest);
      assert EncodeAll(ts) == Frame(item) + rest;
      ParseItemOf(ts[0], |EncodeAll(ts)|);
      ParseEncodeAll(ts[1..]);
      assert [ts[0]] + ts[1..] == ts;
    }
  }

  /** The framed item a tree is printed as. */
  function ItemOf(t: Tree): (item: Item)
    requires Sized(t)
    ensures |item.payload| < WORD64
    ensures Encode(t) == Frame(item)
  {
    match t
    case Str(bytes) => Item(false, bytes)
    case List(items) => Item(true, EncodeAll(items))
  }

  lemma {:induction false} ParseItemOf(t: Tree, bound: nat)
    requires Sized(t)
    requires ItemOf(t).list ==> |ItemOf(t).payload| < bound
    ensures ParseItem(ItemOf(t), bound) == Some(t)
    decreases t, 1
  {
    if t.List? {
      ParseEncodeAll(t.items);
    }
  }

  /** Whatever parses is the encoding of its trees: no byte string has two readings. */
  lemma {:induction false} EncodeParseAll(input: seq<Byte>)
    requires ParseAll(input).Some?
    ensures SizedAll(ParseAll(input).value)
    ensures EncodeAll(ParseAll(input).value) == input
    decreases |input|
  {
    if input != [] {
      var (item, rest) := Unframe(input).value;
      FrameUnframe(input);
      EncodeParseAll(rest);
      if item.list {
        EncodeParseAll(item.payload);
      }
      var t := ParseItem(item, |input|).value;
      assert Sized(t) && Encode(t) == Frame(item);
      assert ([t] + ParseAll(rest).value)[1..] == ParseAll(rest).value;
    }
  }

  /** No encoding is a prefix of another tree's encoding. */
  lemma PrefixFree(a: Tree, b: Tree, x: seq<Byte>, y: seq<Byte>)
    requires Sized(a) && Sized(b)
    requires Encode(a) + x == Encode(b) + y
    ensures a == b && x == y
  {
    UnframeFrame(ItemOf(a), x);
    UnframeFrame(ItemOf(b), y);
    ParseItemOf(a, |Encode(a)|);
    ParseItemOf(b, |Encode(b)|);
    assert ItemOf(a) == ItemOf(b);
    ParseItemBound(ItemOf(a), |Encode(a)|, |Encode(b)|);
  }

  lemma ParseItemBound(item: Item, a: nat, b: nat)
    requires item.list ==> |item.payload| < a && |item.payload| < b
    ensures ParseItem(item, a) == ParseItem(item, b)
  {
  }
}
