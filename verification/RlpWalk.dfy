/** The budgeted walk that bounds list traversal before an envelope is decoded. */
module RlpWalk {
  import opened Wrappers
  import opened ByteStrings
  import opened Rlp

  const MAX_DEPTH: nat := 64

  datatype RlpError = DepthLimit | ValueLimit | BadHeader | Truncated

  function Max(a: nat, b: nat): nat {
    if a < b then b else a
  }

  /** Items of a tree, itself included. */
  function Count(t: Tree): (n: nat)
    ensures n >= 1
  {
    match t
    case Str(_) => 1
    case List(items) => 1 + CountAll(items)
  }

  function CountAll(ts: seq<Tree>): (n: nat)
    ensures ts == [] ==> n == 0
  {
    if ts == [] then 0 else Count(ts[0]) + CountAll(ts[1..])
  }

  /** How deep lists are nested. */
  function Depth(t: Tree): nat {
    match t
    case Str(_) => 0
    case List(items) => 1 + DepthAll(items)
  }

  function DepthAll(ts: seq<Tree>): (d: nat)
    ensures ts == [] ==> d == 0
  {
    if ts == [] then 0 else Max(Depth(ts[0]), DepthAll(ts[1..]))
  }

  lemma {:induction false} AllAppend(a: seq<Tree>, b: seq<Tree>)
    ensures CountAll(a + b) == CountAll(a) + CountAll(b)
    ensures DepthAll(a + b) == Max(DepthAll(a), DepthAll(b))
  {
    if a == [] {
      assert a + b == b;
    } else {
      AllAppend(a[1..], b);
      assert (a + b)[1..] == a[1..] + b && (a + b)[0] == a[0];
    }
  }

  predicate Accepts(input: seq<Byte>, depth: nat, nodes: nat) {
    match ParseAll(input)
    case None => false
    case Some(trees) => depth + DepthAll(trees) <= MAX_DEPTH && CountAll(trees) <= nodes
  }

  /** The walk accepts exactly canonical encodings of trees within both limits, and it spends one unit an item. */
  method PreflightRlp(input: seq<Byte>, depth: nat, nodes: nat) returns (r: Result<(), RlpError>, left: nat)
    ensures r.Ok? <==> Accepts(input, depth, nodes)
    ensures r.Ok? ==> left == nodes - CountAll(ParseAll(input).value)
    decreases |input|
  {
    hide DecodeHeader, CountAll, DepthAll;
    left := nodes;
    if depth > MAX_DEPTH {
      return Err(DepthLimit), left;
    }
    var rest := input;
    ghost var done: seq<Tree> := [];
    assert ParseAll(input).Some? ==> done + ParseAll(input).value == ParseAll(input).value;
    while rest != []
      invariant |rest| <= |input|
      invariant ParseAll(input) == match ParseAll(rest) case None => None case Some(ts) => Some(done + ts)
      invariant left == nodes - CountAll(done)
      invariant depth + DepthAll(done) <= MAX_DEPTH
      decreases |rest|
    {
      if left == 0 {
        Refuse(input, depth, nodes, done, rest);
        return Err(ValueLimit), left;
      }
      left := left - 1;
      var header := DecodeHeader(rest);
      if header.None? {
        return Err(BadHeader), left;
      }
      var payload := rest[header.value.size..];
      if header.value.length > |payload| {
        return Err(Truncated), left;
      }
      var next := payload[header.value.length..];
      payload := payload[..header.value.length];
      assert Unframe(rest) == Some((Item(header.value.list, payload), next)) by {
        assert rest[header.value.size + header.value.length..] == next;
        assert rest[header.value.size..header.value.size + header.value.length] == payload;
      }
      if header.value.list {
        var inner;
        inner, left := PreflightRlp(payload, depth + 1, left);
        if inner.Err? {
          Refuse(input, depth, nodes, done, rest);
          return Err(inner.error), left;
        }
      }
      ghost var t := ParseItem(Item(header.value.list, payload), |rest|).value;
      Advance(done, t, rest, next);
      done := done + [t];
      rest := next;
    }
    assert done + [] == done;
    return Ok(()), left;
  }

  lemma Advance(done: seq<Tree>, t: Tree, rest: seq<Byte>, next: seq<Byte>)
    requires rest != [] && Unframe(rest).Some? && Unframe(rest).value.1 == next
    requires ParseItem(Unframe(rest).value.0, |rest|) == Some(t)
    ensures ParseAll(rest).Some? <==> ParseAll(next).Some?
    ensures ParseAll(next).Some? ==> done + ParseAll(rest).value == done + [t] + ParseAll(next).value
    ensures CountAll(done + [t]) == CountAll(done) + Count(t)
    ensures DepthAll(done + [t]) == Max(DepthAll(done), Depth(t))
  {
    hide Unframe, DecodeHeader, ParseItem, Count, Depth, CountAll, DepthAll;
    AllAppend(done, [t]);
    OneTree(t);
    assert ParseAll(rest) == match ParseAll(next) case None => None case Some(more) => Some([t] + more);
    if ParseAll(next).Some? {
      assert done + ([t] + ParseAll(next).value) == done + [t] + ParseAll(next).value;
    }
  }

  lemma OneTree(t: Tree)
    ensures CountAll([t]) == Count(t) && DepthAll([t]) == Depth(t)
  {
    hide Count, Depth;
    assert [t][1..] == [];
  }

  /** The next item does not fit what is left: the whole input is refused. */
  lemma Refuse(input: seq<Byte>, depth: nat, nodes: nat, done: seq<Tree>, rest: seq<Byte>)
    requires rest != []
    requires ParseAll(input) == match ParseAll(rest) case None => None case Some(ts) => Some(done + ts)
    requires CountAll(done) <= nodes
    requires Unframe(rest).Some? ==>
               var item := Unframe(rest).value.0;
               || CountAll(done) == nodes
               || (item.list && !Accepts(item.payload, depth + 1, nodes - CountAll(done) - 1))
    ensures !Accepts(input, depth, nodes)
  {
    if ParseAll(rest).Some? {
      AllAppend(done, ParseAll(rest).value);
    }
  }

  /** On what the printer writes, the walk's verdict is the tree's own depth and size. */
  lemma AcceptsEncoded(ts: seq<Tree>, nodes: nat)
    requires SizedAll(ts)
    ensures Accepts(EncodeAll(ts), 0, nodes) <==> DepthAll(ts) <= 64 && CountAll(ts) <= nodes
  {
    ParseEncodeAll(ts);
  }
}
