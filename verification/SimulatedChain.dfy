/**
 The blocks of a simulation request, completed to a gapless chain on top of a base block. Numbers
 and times are 64-bit; a number override is a big integer of which the low 64 bits count.
 */
module SimulatedChain {
  import opened Wrappers
  import opened ByteStrings

  const MAX_BLOCKS: nat := 256
  const TIMESTAMP_INCREMENT: nat := 12

  datatype Block = Block(number: Option<nat>, time: Option<nat>, calls: seq<nat>)

  datatype SimulationError = NumberOrder | TooManyBlocks | TimestampOrder

  /** Empty blocks for a gap, each twelve seconds after the one before. */
  function Fill(number: nat, time: nat, gap: nat): (blocks: seq<Block>)
    ensures |blocks| == gap
  {
    if gap == 0 then [] else
      Fill(number, time, gap - 1) +
      [Block(Some((number + gap) % WORD64), Some(TimeAfter(time, gap)), [])]
  }

  function NumberOf(block: Block, previous: nat): nat {
    if block.number.None? then (previous + 1) % WORD64 else block.number.value
  }

  function TimeOf(block: Block, previous: nat): nat {
    if block.time.None? then (previous + TIMESTAMP_INCREMENT) % WORD64 else block.time.value
  }

  /** The blocks that complete one input block, and its number and time. */
  function Completed(base: nat, number: nat, time: nat, block: Block): Result<(seq<Block>, nat, nat), SimulationError>
    requires base <= number
  {
    var own := NumberOf(block, number);
    var low := own % WORD64;
    if low <= number then Err(NumberOrder)
    else if low - base > MAX_BLOCKS then Err(TooManyBlocks)
    else
      var gap := low - number - 1;
      var filled := TimeAfter(time, gap);
      var stamp := TimeOf(block, filled);
      if block.time.Some? && stamp <= filled then Err(TimestampOrder)
      else Ok((Fill(number, time, gap) + [block.(number := Some(own), time := Some(stamp))], low, stamp))
  }

  function Sanitized(base: nat, number: nat, time: nat, blocks: seq<Block>): Result<seq<Block>, SimulationError>
    requires base <= number
    decreases |blocks|
  {
    if blocks == [] then Ok([]) else
      match Completed(base, number, time, blocks[0])
      case Err(error) => Err(error)
      case Ok((out, low, stamp)) =>
        match Sanitized(base, low, stamp, blocks[1..])
        case Err(error) => Err(error)
        case Ok(rest) => Ok(out + rest)
  }

  method SanitizeSimulatedBlocks(baseNumber: nat, baseTime: nat, blocks: seq<Block>)
      returns (r: Result<seq<Block>, SimulationError>)
    requires baseNumber < WORD64 && baseTime < WORD64
    ensures r == Sanitized(baseNumber, baseNumber, baseTime, blocks)
  {
    hide Completed;
    var sanitized: seq<Block> := [];
    var prevNumber: nat, prevTimestamp: nat := baseNumber, baseTime;
    assert blocks[0..] == blocks;
    assert forall rest: seq<Block> :: [] + rest == rest;
    for k := 0 to |blocks|
      invariant baseNumber <= prevNumber
      invariant Sanitized(baseNumber, baseNumber, baseTime, blocks) ==
                match Sanitized(baseNumber, prevNumber, prevTimestamp, blocks[k..])
                case Err(error) => Err(error)
                case Ok(rest) => Ok(sanitized + rest)
    {
      assert blocks[k..][0] == blocks[k] && blocks[k..][1..] == blocks[k + 1..];
      var completed := CompleteBlock(baseNumber, prevNumber, prevTimestamp, blocks[k]);
      if completed.Err? {
        return Err(completed.error);
      }
      var (out, number, time) := completed.value;
      ghost var rest := Sanitized(baseNumber, number, time, blocks[k + 1..]);
      assert rest.Ok? ==> sanitized + (out + rest.value) == sanitized + out + rest.value;
      sanitized := sanitized + out;
      prevNumber, prevTimestamp := number, time;
    }
    assert sanitized + [] == sanitized;
    return Ok(sanitized);
  }

  /** One input block: its number is checked, the gap before it is filled, its time is checked. */
  method CompleteBlock(base: nat, prevNumber: nat, prevTimestamp: nat, input: Block)
      returns (r: Result<(seq<Block>, nat, nat), SimulationError>)
    requires base <= prevNumber
    ensures r == Completed(base, prevNumber, prevTimestamp, input)
    ensures r.Ok? ==> prevNumber < r.value.1
  {
    var block := input;
    if block.number.None? {
      block := block.(number := Some((prevNumber + 1) % WORD64));
    }
    var blockNumber := block.number.value % WORD64;
    if blockNumber <= prevNumber {
      return Err(NumberOrder);
    }
    if blockNumber - base > MAX_BLOCKS {
      return Err(TooManyBlocks);
    }
    var gap := blockNumber - prevNumber - 1;
    var out, time := FillGap(prevNumber, prevTimestamp, gap);
    if block.time.None? {
      time := (time + TIMESTAMP_INCREMENT) % WORD64;
      block := block.(time := Some(time));
    } else {
      if block.time.value <= time {
        return Err(TimestampOrder);
      }
      time := block.time.value;
    }
    return Ok((out + [block], blockNumber, time));
  }

  /** The time after `gap` blocks with the default increment. */
  function TimeAfter(time: nat, gap: nat): nat {
    if gap == 0 then time else (time + TIMESTAMP_INCREMENT * gap) % WORD64
  }

  lemma TimeAfterNext(time: nat, gap: nat)
    ensures (TimeAfter(time, gap) + TIMESTAMP_INCREMENT) % WORD64 == TimeAfter(time, gap + 1)
  {
    var sum := time + TIMESTAMP_INCREMENT * gap;
    assert sum == sum / WORD64 * WORD64 + sum % WORD64;
    ModAdd(sum, TIMESTAMP_INCREMENT);
  }

  lemma ModAdd(a: nat, b: nat)
    ensures (a % WORD64 + b) % WORD64 == (a + b) % WORD64
  {
  }

  /** Empty blocks up to the next input block. */
  method FillGap(number: nat, time: nat, gap: nat) returns (out: seq<Block>, last: nat)
    ensures out == Fill(number, time, gap) && last == TimeAfter(time, gap)
  {
    out := [];
    last := time;
    for i := 0 to gap
      invariant out == Fill(number, time, i) && last == TimeAfter(time, i)
    {
      TimeAfterNext(time, i);
      var n := (number + i + 1) % WORD64;
      last := (last + TIMESTAMP_INCREMENT) % WORD64;
      out := out + [Block(Some(n), Some(last), [])];
    }
  }

  // ---------- What the completed chain looks like ----------

  /** Numbers, in 64 bits, go up by one from the block before. */
  predicate Gapless(number: nat, blocks: seq<Block>) {
    forall i | 0 <= i < |blocks| :: blocks[i].number.Some? && blocks[i].number.value % WORD64 == number + 1 + i
  }

  function LastTime(time: nat, blocks: seq<Block>): nat {
    if blocks == [] then time else blocks[|blocks| - 1].time.GetOr(0)
  }

  /** Every time is set and later than the one before. */
  predicate Later(time: nat, blocks: seq<Block>) {
    blocks == [] ||
    var front, last := blocks[..|blocks| - 1], blocks[|blocks| - 1];
    Later(time, front) && last.time.Some? && last.time.value > LastTime(time, front)
  }

  /** The input blocks, with missing fields set, in order among the output; the others are empty. */
  predicate Embeds(blocks: seq<Block>, out: seq<Block>)
    decreases |out|
  {
    if out == [] then blocks == []
    else
      || (blocks != [] && Extends(blocks[0], out[0]) && Embeds(blocks[1..], out[1..]))
      || (out[0].calls == [] && Embeds(blocks, out[1..]))
  }

  predicate Extends(block: Block, out: Block) {
    && out.calls == block.calls
    && (block.number.Some? ==> out.number == block.number)
    && (block.time.Some? ==> out.time == block.time)
  }

  /** Times are 64-bit. */
  predicate Timed(blocks: seq<Block>) {
    forall i | 0 <= i < |blocks| :: blocks[i].time.Some? ==> blocks[i].time.value < WORD64
  }

  /** No default time passes the last 64-bit second: not in a gap, and not on a block without a time. */
  predicate NoWrap(number: nat, time: nat, blocks: seq<Block>)
    decreases |blocks|
  {
    blocks == [] ||
    var low := NumberOf(blocks[0], number) % WORD64;
    && low > number
    && var filled := time + TIMESTAMP_INCREMENT * (low - number - 1);
    && filled < WORD64
    && (blocks[0].time.Some? || filled + TIMESTAMP_INCREMENT < WORD64)
    && NoWrap(low, blocks[0].time.GetOr(filled + TIMESTAMP_INCREMENT), blocks[1..])
  }

  /** The facts about one completed block. */
  lemma CompletedNumbers(base: nat, number: nat, time: nat, block: Block)
    requires base <= number < WORD64
    requires Completed(base, number, time, block).Ok?
    ensures var (out, low, _) := Completed(base, number, time, block).value;
            Gapless(number, out) && |out| == low - number && low - base <= MAX_BLOCKS && low < WORD64
  {
    var (out, low, _) := Completed(base, number, time, block).value;
    FillNumbers(number, time, low - number - 1);
  }

  lemma {:induction false} FillNumbers(number: nat, time: nat, gap: nat)
    requires number + gap < WORD64
    ensures Gapless(number, Fill(number, time, gap))
  {
    if gap > 0 {
      FillNumbers(number, time, gap - 1);
      assert Fill(number, time, gap)[gap - 1].number == Some(number + gap);
    }
  }

  /** The chain has no gap: every number is its predecessor's plus one, and at most 256 blocks are added. */
  lemma {:induction false} SanitizedNumbers(base: nat, number: nat, time: nat, blocks: seq<Block>)
    requires base <= number < WORD64 && number - base <= MAX_BLOCKS
    requires Sanitized(base, number, time, blocks).Ok?
    ensures var out := Sanitized(base, number, time, blocks).value;
            Gapless(number, out) && number + |out| - base <= MAX_BLOCKS
    decreases |blocks|
  {
    hide Completed;
    if blocks != [] {
      var (out, low, stamp) := Completed(base, number, time, blocks[0]).value;
      CompletedNumbers(base, number, time, blocks[0]);
      SanitizedNumbers(base, low, stamp, blocks[1..]);
    }
  }

  lemma LaterAppend(time: nat, blocks: seq<Block>, b: Block)
    ensures Later(time, blocks + [b]) <==>
              Later(time, blocks) && b.time.Some? && b.time.value > LastTime(time, blocks)
    ensures LastTime(time, blocks + [b]) == b.time.GetOr(0)
  {
    assert (blocks + [b])[..|blocks|] == blocks;
  }

  lemma TimeAfterExact(time: nat, gap: nat)
    requires time + TIMESTAMP_INCREMENT * gap < WORD64
    ensures TimeAfter(time, gap) == time + TIMESTAMP_INCREMENT * gap
  {
  }

  lemma NothingLater(time: nat)
    ensures Later(time, []) && LastTime(time, []) == time
  {
  }

  /** The blocks of a gap have increasing times exactly if the last of them does not wrap around. */
  lemma {:induction false} FillTimes(number: nat, time: nat, gap: nat)
    requires time < WORD64
    ensures Later(time, Fill(number, time, gap)) <==> time + TIMESTAMP_INCREMENT * gap < WORD64
    ensures LastTime(time, Fill(number, time, gap)) == TimeAfter(time, gap)
  {
    hide Later, LastTime, TimeAfter;
    if gap == 0 {
      NothingLater(time);
      TimeAfterExact(time, 0);
    } else {
      FillTimes(number, time, gap - 1);
      var last := Fill(number, time, gap)[gap - 1];
      assert last.time == Some(TimeAfter(time, gap));
      LaterAppend(time, Fill(number, time, gap - 1), last);
      NextTime(time, gap - 1);
    }
  }

  lemma NextTime(time: nat, gap: nat)
    ensures time + TIMESTAMP_INCREMENT * gap < WORD64 ==>
              (TimeAfter(time, gap + 1) > TimeAfter(time, gap) <==> time + TIMESTAMP_INCREMENT * (gap + 1) < WORD64)
  {
    if time + TIMESTAMP_INCREMENT * gap < WORD64 {
      TimeAfterExact(time, gap);
      WrapsBelow(time + TIMESTAMP_INCREMENT * gap);
    }
  }

  lemma WrapsBelow(t: nat)
    requires t < WORD64
    ensures (t + TIMESTAMP_INCREMENT) % WORD64 > t <==> t + TIMESTAMP_INCREMENT < WORD64
  {
  }

  lemma CompletedTimes(base: nat, number: nat, time: nat, block: Block)
    requires base <= number < WORD64 && time < WORD64
    requires block.time.Some? ==> block.time.value < WORD64
    requires Completed(base, number, time, block).Ok?
    ensures var (out, low, stamp) := Completed(base, number, time, block).value;
            var filled := time + TIMESTAMP_INCREMENT * (low - number - 1);
            && (Later(time, out) <==> filled < WORD64 && (block.time.Some? || filled + TIMESTAMP_INCREMENT < WORD64))
            && LastTime(time, out) == stamp < WORD64
            && (Later(time, out) ==> stamp == block.time.GetOr(filled + TIMESTAMP_INCREMENT))
  {
    hide Later, LastTime, Fill;
    var (out, low, stamp) := Completed(base, number, time, block).value;
    var gap := low - number - 1;
    FillTimes(number, time, gap);
    LaterAppend(time, Fill(number, time, gap), out[gap]);
    if time + TIMESTAMP_INCREMENT * gap < WORD64 {
      TimeAfterExact(time, gap);
      WrapsBelow(time + TIMESTAMP_INCREMENT * gap);
    }
  }

  lemma {:induction false} LaterConcat(time: nat, a: seq<Block>, b: seq<Block>)
    ensures Later(time, a + b) <==> Later(time, a) && Later(LastTime(time, a), b)
    ensures b != [] ==> LastTime(time, a + b) == LastTime(LastTime(time, a), b)
    decreases |b|
  {
    if b == [] {
      assert a + b == a;
    } else {
      var front, last := b[..|b| - 1], b[|b| - 1];
      LaterConcat(time, a, front);
      if front == [] {
        assert a + front == a;
      }
      LaterAppend(time, a + front, last);
      assert a + b == a + front + [last];
    }
  }

  /** Times strictly increase from the base block on exactly when no default time wraps around. */
  lemma {:induction false} SanitizedTimes(base: nat, number: nat, time: nat, blocks: seq<Block>)
    requires base <= number < WORD64 && time < WORD64 && Timed(blocks)
    requires Sanitized(base, number, time, blocks).Ok?
    ensures Later(time, Sanitized(base, number, time, blocks).value) <==> NoWrap(number, time, blocks)
    decreases |blocks|
  {
    hide Completed, Later, NumberOf;
    if blocks == [] {
      NothingLater(time);
    } else {
      var (out, low, stamp) := Completed(base, number, time, blocks[0]).value;
      CompletedNumbers(base, number, time, blocks[0]);
      CompletedTimes(base, number, time, blocks[0]);
      OwnNumber(base, number, time, blocks[0]);
      SanitizedTimes(base, low, stamp, blocks[1..]);
      LaterConcat(time, out, Sanitized(base, low, stamp, blocks[1..]).value);
    }
  }

  lemma OwnNumber(base: nat, number: nat, time: nat, block: Block)
    requires base <= number && Completed(base, number, time, block).Ok?
    ensures Completed(base, number, time, block).value.1 == NumberOf(block, number) % WORD64 > number
  {
  }

  /**
   There is room whenever the base time and every given time leave twelve seconds for each block of the
   longest chain.
   */
  lemma {:induction false} RoomSuffices(base: nat, number: nat, time: nat, blocks: seq<Block>)
    requires base <= number < WORD64 && number - base <= MAX_BLOCKS
    requires time + TIMESTAMP_INCREMENT * (MAX_BLOCKS - (number - base)) < WORD64
    requires forall i | 0 <= i < |blocks| :: blocks[i].time.Some? ==>
        blocks[i].time.value + TIMESTAMP_INCREMENT * MAX_BLOCKS < WORD64
    requires Sanitized(base, number, time, blocks).Ok?
    ensures NoWrap(number, time, blocks)
    decreases |blocks|
  {
    hide NumberOf, Fill;
    if blocks != [] {
      var (out, low, stamp) := Completed(base, number, time, blocks[0]).value;
      OwnNumber(base, number, time, blocks[0]);
      var gap := low - number - 1;
      TimeAfterExact(time, gap);
      RoomSuffices(base, low, stamp, blocks[1..]);
    }
  }

  /** When a default wraps around the promise fails: a default time after the last 64-bit second is a small number. */
  lemma WrappedTime()
    ensures Sanitized(0, 0, WORD64 - 1, [Block(None, None, [])]) == Ok([Block(Some(1), Some(11), [])])
    ensures !Later(WORD64 - 1, [Block(Some(1), Some(11), [])])
  {
    var block := Block(None, None, []);
    var c := Completed(0, 0, WORD64 - 1, block);
    assert c.Ok? && c.value.1 == 1 && c.value.2 == 11;
    assert c.value.0 == [Block(Some(1), Some(11), [])];
    assert [block][1..] == [];
    assert Sanitized(0, 1, 11, [block][1..]) == Ok([]);
    assert c.value.0 + [] == c.value.0;
    assert LastTime(WORD64 - 1, [Block(Some(1), Some(11), [])][..0]) == WORD64 - 1;
  }

  // ---------- Which requests are accepted ----------

  /** The number of the first `k` input blocks' last: the low 64 bits of its own, or one more than the number before. */
  function NumberAt(number: nat, blocks: seq<Block>, k: nat): nat
    requires k <= |blocks|
  {
    if k == 0 then number
    else if blocks[k - 1].number.Some? then blocks[k - 1].number.value % 0x1_0000_0000_0000_0000
    else (NumberAt(number, blocks, k - 1) + 1) % 0x1_0000_0000_0000_0000
  }

  /** Twelve seconds for each block after the one at `time`. */
  function TwelveEach(time: nat, steps: int): nat {
    if steps == 0 then time else (time + 12 * steps) % 0x1_0000_0000_0000_0000
  }

  /** Its time: its own, or twelve seconds for each block since the input block before. */
  function TimeAt(number: nat, time: nat, blocks: seq<Block>, k: nat): nat
    requires k <= |blocks|
  {
    if k == 0 then time
    else if blocks[k - 1].time.Some? then blocks[k - 1].time.value
    else
      var steps := NumberAt(number, blocks, k) - NumberAt(number, blocks, k - 1);
      TwelveEach(TimeAt(number, time, blocks, k - 1), steps)
  }

  /** What is wrong with input block `k`, if anything. */
  function Fault(base: nat, number: nat, time: nat, blocks: seq<Block>, k: nat): Option<SimulationError>
    requires k < |blocks|
  {
    var before, own := NumberAt(number, blocks, k), NumberAt(number, blocks, k + 1);
    if own <= before then Some(NumberOrder)
    else if own > base + 256 then Some(TooManyBlocks)
    else if blocks[k].time.Some? &&
            blocks[k].time.value <= TwelveEach(TimeAt(number, time, blocks, k), own - before - 1) then
      Some(TimestampOrder)
    else None
  }

  lemma {:induction false} AtShifts(number: nat, time: nat, blocks: seq<Block>, k: nat)
    requires 1 <= k <= |blocks|
    ensures var low, stamp := NumberAt(number, blocks, 1), TimeAt(number, time, blocks, 1);
            && NumberAt(number, blocks, k) == NumberAt(low, blocks[1..], k - 1)
            && TimeAt(number, time, blocks, k) == TimeAt(low, stamp, blocks[1..], k - 1)
  {
    if k > 1 {
      AtShifts(number, time, blocks, k - 1);
    }
  }

  /** Completing the first block fails for its fault, and otherwise gives its number and time. */
  lemma FirstFault(base: nat, number: nat, time: nat, blocks: seq<Block>)
    requires base <= number && blocks != []
    ensures match Completed(base, number, time, blocks[0])
            case Err(error) => Fault(base, number, time, blocks, 0) == Some(error)
            case Ok((_, low, stamp)) =>
              && Fault(base, number, time, blocks, 0) == None
              && low == NumberAt(number, blocks, 1) && stamp == TimeAt(number, time, blocks, 1)
  {
    hide Fill;
    assert NumberAt(number, blocks, 0) == number && TimeAt(number, time, blocks, 0) == time;
    var low := NumberOf(blocks[0], number) % WORD64;
    assert low == NumberAt(number, blocks, 1);
    if low > number {
      TimeAfterNext(time, low - number - 1);
    }
  }

  lemma FaultShifts(base: nat, number: nat, time: nat, blocks: seq<Block>, k: nat)
    requires 1 <= k < |blocks|
    ensures Fault(base, number, time, blocks, k) ==
            Fault(base, NumberAt(number, blocks, 1), TimeAt(number, time, blocks, 1), blocks[1..], k - 1)
  {
    hide NumberAt, TimeAt, TwelveEach;
    AtShifts(number, time, blocks, k);
    AtShifts(number, time, blocks, k + 1);
  }

  /** A request is accepted exactly if no block has a fault, and otherwise fails for the first one. */
  lemma {:induction false} SanitizedAccepts(base: nat, number: nat, time: nat, blocks: seq<Block>)
    requires base <= number
    ensures var r := Sanitized(base, number, time, blocks);
            && (r.Ok? <==> forall k | 0 <= k < |blocks| :: Fault(base, number, time, blocks, k) == None)
            && (r.Err? ==> exists k | 0 <= k < |blocks| ::
                  && Fault(base, number, time, blocks, k) == Some(r.error)
                  && forall j | 0 <= j < k :: Fault(base, number, time, blocks, j) == None)
    decreases |blocks|
  {
    hide Completed, Fault;
    if blocks != [] {
      FirstFault(base, number, time, blocks);
      var c := Completed(base, number, time, blocks[0]);
      if c.Ok? {
        var (out, low, stamp) := c.value;
        OwnNumber(base, number, time, blocks[0]);
        SanitizedAccepts(base, low, stamp, blocks[1..]);
        forall k | 0 <= k < |blocks|
          ensures Fault(base, number, time, blocks, k) ==
                  if k == 0 then None else Fault(base, low, stamp, blocks[1..], k - 1)
        {
          if k > 0 {
            FaultShifts(base, number, time, blocks, k);
          }
        }
        var rest := Sanitized(base, low, stamp, blocks[1..]);
        if rest.Err? {
          var k :| 0 <= k < |blocks[1..]| &&
                   Fault(base, low, stamp, blocks[1..], k) == Some(rest.error) &&
                   forall j | 0 <= j < k :: Fault(base, low, stamp, blocks[1..], j) == None;
          assert Fault(base, number, time, blocks, k + 1) == Some(rest.error);
        }
      }
    }
  }

  /** Gap blocks in front do not matter. */
  lemma {:induction false} SkipFill(number: nat, time: nat, gap: nat, blocks: seq<Block>, out: seq<Block>)
    requires Embeds(blocks, out)
    ensures Embeds(blocks, Fill(number, time, gap) + out)
  {
    if gap == 0 {
      assert Fill(number, time, gap) + out == out;
    } else {
      var last := Fill(number, time, gap)[gap - 1];
      assert ([last] + out)[1..] == out;
      assert Embeds(blocks, [last] + out);
      SkipFill(number, time, gap - 1, blocks, [last] + out);
      assert Fill(number, time, gap - 1) + ([last] + out) == Fill(number, time, gap) + out;
    }
  }

  /** The input blocks come through in order, with nothing but empty blocks between them. */
  lemma {:induction false} SanitizedEmbeds(base: nat, number: nat, time: nat, blocks: seq<Block>)
    requires base <= number
    requires Sanitized(base, number, time, blocks).Ok?
    ensures Embeds(blocks, Sanitized(base, number, time, blocks).value)
    decreases |blocks|
  {
    hide Embeds;
    if blocks == [] {
      NothingEmbeds();
    } else {
      var (out, low, stamp) := Completed(base, number, time, blocks[0]).value;
      var rest := Sanitized(base, low, stamp, blocks[1..]).value;
      var gap := low - number - 1;
      var own := out[|out| - 1];
      SanitizedEmbeds(base, low, stamp, blocks[1..]);
      OwnEmbeds(blocks, own, rest);
      SkipFill(number, time, gap, blocks, [own] + rest);
      assert out + rest == Fill(number, time, gap) + ([own] + rest);
    }
  }

  lemma NothingEmbeds()
    ensures Embeds([], [])
  {
  }

  lemma OwnEmbeds(blocks: seq<Block>, own: Block, rest: seq<Block>)
    requires blocks != [] && Extends(blocks[0], own) && Embeds(blocks[1..], rest)
    ensures Embeds(blocks, [own] + rest)
  {
    assert ([own] + rest)[1..] == rest;
  }
}
