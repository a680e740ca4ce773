/**
 The envelope patch of the Tempo decoder. The decoder of the envelope accepts an empty string or a
 signature in the fee payer field, the twelfth item; a service marker there, the single byte zero,
 is replaced by the empty string first.
 */
module TempoEnvelope {
  import opened Wrappers
  import opened ByteStrings
  import opened Rlp

  const TYPE_BYTE: Byte := 0x76
  const FIELDS: nat := 11

  datatype TempoError = NotTempo | BadHeader | InvalidLength | TruncatedField

  predicate SizedItems(items: seq<Item>) {
    forall i | 0 <= i < |items| :: |items[i].payload| < WORD64
  }

  function FrameAll(items: seq<Item>): seq<Byte>
    requires SizedItems(items)
  {
    if items == [] then [] else FrameAll(items[..|items| - 1]) + Frame(items[|items| - 1])
  }

  /** A transaction whose list holds the framed items and then `tail`. */
  function Envelope(items: seq<Item>, tail: seq<Byte>): seq<Byte>
    requires SizedItems(items)
    requires |FrameAll(items) + tail| < WORD64
  {
    [TYPE_BYTE] + Frame(Item(true, FrameAll(items) + tail))
  }

  /** The bytes after the first `k` items, and those items. */
  function SkipItems(cursor: seq<Byte>, k: nat): (r: Option<(seq<Item>, seq<Byte>)>)
    ensures r.Some? ==> |r.value.0| == k && SizedItems(r.value.0) && |r.value.1| <= |cursor|
  {
    if k == 0 then Some(([], cursor)) else
      match SkipItems(cursor, k - 1)
      case None => None
      case Some((items, rest)) =>
        match Unframe(rest)
        case None => None
        case Some((item, more)) => Some((items + [item], more))
  }

  /** The first eleven items of a well-framed envelope, and the bytes behind them. */
  function Fields(bytes: seq<Byte>): (r: Option<(seq<Item>, seq<Byte>)>)
    ensures r.Some? ==> bytes != [] && bytes[0] == 0x76 && |r.value.0| == 11 && SizedItems(r.value.0)
  {
    if bytes == [] || bytes[0] != TYPE_BYTE then None else
      match DecodeHeader(bytes[1..])
      case None => None
      case Some(Header(list, size, length)) =>
        if !list || length != |bytes| - 1 - size then None else SkipItems(bytes[1 + size..], FIELDS)
  }

  lemma {:induction false} SkipItemsFrames(cursor: seq<Byte>, k: nat)
    requires SkipItems(cursor, k).Some?
    ensures var (items, rest) := SkipItems(cursor, k).value; FrameAll(items) + rest == cursor
  {
    hide Unframe, Frame, FrameAll;
    if k == 0 {
      NoFrames(cursor);
    } else {
      SkipItemsFrames(cursor, k - 1);
      var (items, rest) := SkipItems(cursor, k - 1).value;
      var (item, more) := Unframe(rest).value;
      FrameUnframe(rest);
      FrameAllNext(items, item);
      Regroup(FrameAll(items), Frame(item), more);
    }
  }

  lemma NoFrames(tail: seq<Byte>)
    ensures FrameAll([]) + tail == tail
  {
  }

  lemma Regroup(a: seq<Byte>, b: seq<Byte>, c: seq<Byte>)
    ensures a + b + c == a + (b + c)
  {
  }

  lemma FrameAllNext(items: seq<Item>, item: Item)
    requires SizedItems(items) && |item.payload| < WORD64
    ensures SizedItems(items + [item])
    ensures FrameAll(items + [item]) == FrameAll(items) + Frame(item)
  {
    assert (items + [item])[..|items|] == items;
  }

  lemma {:induction false} SkipFramed(items: seq<Item>, tail: seq<Byte>)
    requires SizedItems(items)
    ensures SkipItems(FrameAll(items) + tail, |items|) == Some((items, tail))
  {
    hide Unframe, Frame;
    if items == [] {
      NoFrames(tail);
    } else {
      var front, last := items[..|items| - 1], items[|items| - 1];
      Regroup(FrameAll(front), Frame(last), tail);
      SkipFramed(front, Frame(last) + tail);
      UnframeFrame(last, tail);
      assert front + [last] == items;
      assert Unframe(Frame(last) + tail) == Some((last, tail));
    }
  }

  /** The accepted inputs are exactly the envelopes of at least eleven framed items. */
  lemma FieldsOfEnvelope(items: seq<Item>, tail: seq<Byte>)
    requires SizedItems(items) && |items| == FIELDS
    requires |FrameAll(items) + tail| < WORD64
    ensures Fields(Envelope(items, tail)) == Some((items, tail))
  {
    var payload := FrameAll(items) + tail;
    var bytes := Envelope(items, tail);
    var framed := Frame(Item(true, payload));
    assert bytes[1..] == framed;
    HeaderRoundTrip(true, |payload|, payload);
    assert bytes[1 + |HeaderBytes(true, |payload|)|..] == payload;
    SkipFramed(items, tail);
  }

  lemma EnvelopeOfFields(bytes: seq<Byte>)
    requires Fields(bytes).Some?
    ensures var (items, tail) := Fields(bytes).value;
            |FrameAll(items) + tail| < WORD64 && Envelope(items, tail) == bytes
  {
    hide SkipItems, FrameAll, HeaderBytes, DecodeHeader;
    var h := DecodeHeader(bytes[1..]).value;
    HeaderUnique(bytes[1..]);
    var body, cursor := bytes[1..], bytes[1 + h.size..];
    SkipItemsFrames(cursor, FIELDS);
    assert body[h.size..] == cursor;
    assert body == body[..h.size] + cursor;
    assert bytes == [bytes[0]] + body;
  }

  predicate Placeholder(tail: seq<Byte>) {
    tail != [] && tail[0] == 0
  }

  function Patched(tail: seq<Byte>): (r: seq<Byte>)
    ensures |r| == |tail|
  {
    if Placeholder(tail) then tail[0 := 0x80] else tail
  }

  /** The patch, up to the point where the envelope is handed to its decoder. */
  method Normalize(bytes: seq<Byte>) returns (r: Result<(seq<Byte>, bool), TempoError>)
    requires |bytes| < WORD64
    ensures r.Ok? <==> Fields(bytes).Some?
    ensures r.Ok? ==>
              var (items, tail) := Fields(bytes).value;
              && r.value.1 == Placeholder(tail)
              && |FrameAll(items) + Patched(tail)| < WORD64
              && [TYPE_BYTE] + r.value.0 == Envelope(items, Patched(tail))
  {
    hide SkipItems, FrameAll, Envelope, DecodeHeader, Patched;
    if bytes == [] || bytes[0] != TYPE_BYTE {
      return Err(NotTempo);
    }
    var body := bytes[1..];
    var header := DecodeHeader(body);
    if header.None? {
      return Err(BadHeader);
    }
    var cursor := body[header.value.size..];
    if !header.value.list || header.value.length != |cursor| {
      return Err(InvalidLength);
    }
    assert bytes[1 + header.value.size..] == cursor;
    ghost var payload := cursor;
    cursor :- SkipFields(cursor);
    EnvelopeOfFields(bytes);
    var placeholder := cursor != [] && cursor[0] == 0;
    var normalized := bytes[1..];
    if placeholder {
      var offset := |normalized| - |cursor|;
      normalized := normalized[offset := 0x80];
    }
    PatchAtOffset(bytes, normalized);
    return Ok((normalized, placeholder));
  }

  /** The cursor moves over eleven items. */
  method SkipFields(start: seq<Byte>) returns (r: Result<seq<Byte>, TempoError>)
    ensures r.Ok? <==> SkipItems(start, FIELDS).Some?
    ensures r.Ok? ==> r.value == SkipItems(start, FIELDS).value.1
  {
    hide DecodeHeader;
    var cursor := start;
    ghost var items: seq<Item> := [];
    for i := 0 to FIELDS
      invariant SkipItems(start, i) == Some((items, cursor))
    {
      var h := DecodeHeader(cursor);
      if h.None? {
        SkipFails(start, i + 1, FIELDS);
        return Err(BadHeader);
      }
      var payload := cursor[h.value.size..];
      if h.value.length > |payload| {
        SkipFails(start, i + 1, FIELDS);
        return Err(TruncatedField);
      }
      var next := payload[h.value.length..];
      ghost var item := Item(h.value.list, payload[..h.value.length]);
      assert cursor[h.value.size + h.value.length..] == next;
      assert cursor[h.value.size..h.value.size + h.value.length] == item.payload;
      assert Unframe(cursor) == Some((item, next));
      items := items + [item];
      cursor := next;
    }
    return Ok(cursor);
  }

  /** Writing one byte in place is patching the bytes behind the eleventh item. */
  lemma PatchAtOffset(bytes: seq<Byte>, normalized: seq<Byte>)
    requires Fields(bytes).Some?
    requires var (items, tail) := Fields(bytes).value;
             && |tail| < |bytes|
             && normalized == if Placeholder(tail) then bytes[1..][|bytes| - 1 - |tail| := 0x80] else bytes[1..]
    ensures var (items, tail) := Fields(bytes).value;
            && |FrameAll(items) + Patched(tail)| < WORD64
            && [TYPE_BYTE] + normalized == Envelope(items, Patched(tail))
  {
    hide FrameAll, Fields, HeaderBytes;
    EnvelopeOfFields(bytes);
    var (items, tail) := Fields(bytes).value;
    var head := HeaderBytes(true, |FrameAll(items) + tail|) + FrameAll(items);
    assert bytes[1..] == head + tail;
    assert normalized == head + Patched(tail);
  }

  lemma {:induction false} SkipFails(cursor: seq<Byte>, j: nat, k: nat)
    requires j <= k
    requires SkipItems(cursor, j) == None
    ensures SkipItems(cursor, k) == None
  {
    if j < k {
      SkipFails(cursor, j, k - 1);
    }
  }

  /** At the level of items: the twelfth item is emptied if it is the marker, and nothing else changes. */
  lemma PatchReplacesItem(item: Item, rest: seq<Byte>)
    requires |item.payload| < WORD64
    ensures Placeholder(Frame(item) + rest) <==> item == Item(false, [0])
    ensures Patched(Frame(item) + rest) == Frame(if item == Item(false, [0]) then Item(false, []) else item) + rest
  {
    if Placeholder(Frame(item) + rest) {
      assert Frame(item)[0] == 0;
      assert item.payload == [0];
      assert Frame(Item(false, [])) == [0x80];
      assert (Frame(item) + rest)[0 := 0x80] == [0x80] + rest;
    }
  }

  /** The envelope with the marker, as an item of its own, becomes the envelope with an empty item there. */
  lemma PatchedEnvelope(items: seq<Item>, item: Item, rest: seq<Byte>)
    requires SizedItems(items) && |items| == FIELDS && |item.payload| < WORD64
    requires |FrameAll(items + [item]) + rest| < WORD64
    ensures var tail := Frame(item) + rest;
            var patched := if item == Item(false, [0]) then Item(false, []) else item;
            && Fields(Envelope(items + [item], rest)) == Some((items, tail))
            && |FrameAll(items) + Patched(tail)| < WORD64
            && |FrameAll(items + [patched]) + rest| < WORD64
            && Envelope(items, Patched(tail)) == Envelope(items + [patched], rest)
  {
    hide Fields, Frame, FrameAll, Patched, HeaderBytes, Placeholder;
    var tail := Frame(item) + rest;
    var patched := if item == Item(false, [0]) then Item(false, []) else item;
    PatchReplacesItem(item, rest);
    FrameAllNext(items, item);
    FrameAllNext(items, patched);
    assert FrameAll(items) + Frame(item) + rest == FrameAll(items) + tail;
    assert FrameAll(items) + Frame(patched) + rest == FrameAll(items) + Patched(tail);
    FieldsOfEnvelope(items, tail);
  }

  /** The byte to put back, given where the twelfth item starts. */
  function Restore(envelope: seq<Byte>, placeholder: bool): seq<Byte> {
    match Fields(envelope)
    case None => envelope
    case Some((items, tail)) =>
      if placeholder && tail != [] && |FrameAll(items) + tail| < WORD64
      then Envelope(items, tail[0 := 0]) else envelope
  }

  /** The returned flag is enough to undo the patch. */
  lemma PatchUndone(bytes: seq<Byte>)
    requires Fields(bytes).Some?
    ensures var (items, tail) := Fields(bytes).value;
            && |FrameAll(items) + Patched(tail)| < WORD64
            && Restore(Envelope(items, Patched(tail)), Placeholder(tail)) == bytes
  {
    EnvelopeOfFields(bytes);
    var (items, tail) := Fields(bytes).value;
    FieldsOfEnvelope(items, Patched(tail));
    if Placeholder(tail) {
      assert Patched(tail)[0 := 0] == tail;
    }
  }

  /** At most one byte differs, and it is the first byte of the twelfth item. */
  lemma PatchTouchesOneByte(items: seq<Item>, tail: seq<Byte>, i: nat)
    requires SizedItems(items) && |FrameAll(items) + tail| < WORD64
    ensures |FrameAll(items) + Patched(tail)| < WORD64
    ensures |Envelope(items, Patched(tail))| == |Envelope(items, tail)|
    ensures i < |Envelope(items, tail)| && Envelope(items, Patched(tail))[i] != Envelope(items, tail)[i] ==>
              Placeholder(tail) && i == |Envelope(items, tail)| - |tail|
  {
    hide FrameAll, HeaderBytes, Patched;
    var before := [TYPE_BYTE] + HeaderBytes(true, |FrameAll(items) + tail|) + FrameAll(items);
    assert Envelope(items, tail) == before + tail;
    assert Envelope(items, Patched(tail)) == before + Patched(tail);
    PatchedAt(tail, i - |before|);
  }

  lemma PatchedAt(tail: seq<Byte>, j: int)
    ensures 0 <= j < |tail| && Patched(tail)[j] != tail[j] ==> Placeholder(tail) && j == 0
  {
  }
}
