/** Handing queued blocks out to peers by their bitfield (src/main.c), and what runs of it keep. */
module Dispatch {
  import opened Bytes
  import opened WorkQueue
  import opened Work

  // ---------- get_bit_from_data ----------

  function Pow2(k: nat): (p: nat)
    ensures p > 0
  {
    if k == 0 then 1 else 2 * Pow2(k - 1)
  }

  /** `(data[byte] & (1 << bit)) >> bit`. */
  function GetBit(index: nat, data: bytes): (b: nat)
    requires index / 8 < |data|
    ensures b <= 1
  {
    var byteId := index / 8;
    var bitId := 7 - (index - byteId * 8);
    data[byteId] / Pow2(bitId) % 2
  }

  /** Bits are numbered from the most significant one of each byte: the eight bits `8 * j` to
      `8 * j + 7` are the binary digits of byte `j`, highest first (BEP 3, section "peer messages"). */
  lemma BitsSpellByte(data: bytes, j: nat)
    requires j < |data|
    ensures data[j] == 128 * GetBit(8 * j, data) + 64 * GetBit(8 * j + 1, data) + 32 * GetBit(8 * j + 2, data)
                     + 16 * GetBit(8 * j + 3, data) + 8 * GetBit(8 * j + 4, data) + 4 * GetBit(8 * j + 5, data)
                     + 2 * GetBit(8 * j + 6, data) + GetBit(8 * j + 7, data)
  {
    hide GetBit, ByteBit;
    assert 8 * j + 0 == 8 * j;
    BitOfByte(data, j, 0);
    BitOfByte(data, j, 1);
    BitOfByte(data, j, 2);
    BitOfByte(data, j, 3);
    BitOfByte(data, j, 4);
    BitOfByte(data, j, 5);
    BitOfByte(data, j, 6);
    BitOfByte(data, j, 7);
    BinaryDigits(data[j]);
  }

  /** `d` are the eight binary digits of `b`, the highest first. */
  predicate Binary(d: seq<int>, b: int) {
    && |d| == 8 && (forall i :: 0 <= i < 8 ==> 0 <= d[i] <= 1)
    && b == 128 * d[0] + 64 * d[1] + 32 * d[2] + 16 * d[3] + 8 * d[4] + 4 * d[5] + 2 * d[6] + d[7]
  }

  /** `get_bit_from_data` reads a binary digit: number `index % 8`, counted from the highest, of byte
      `index / 8`. */
  lemma GetBitIsDigit(index: nat, data: bytes, d: seq<int>)
    requires index / 8 < |data| && Binary(d, data[index / 8])
    ensures GetBit(index, data) == d[index % 8]
  {
    hide GetBit;
    var j, k := index / 8, index % 8;
    assert index == 8 * j + k;
    BitOfByte(data, j, k);
    DigitIs(d, data[j], k);
  }

  lemma EightDigits(d: seq<int>, b: int)
    requires Binary(d, b)
    ensures |d| == 8 && forall i :: 0 <= i < 8 ==> 0 <= d[i] <= 1
  {
  }

  lemma DigitIs(d: seq<int>, b: byte, k: nat)
    requires Binary(d, b) && k < 8
    ensures ByteBit(b, k) == d[k]
  {
    hide Pow2, Binary;
    PowersOfTwo();
    EightDigits(d, b);
    HighDigits(d, b);
    LowDigits(d, b);
  }

  lemma HighDigits(d: seq<int>, b: byte)
    requires Binary(d, b)
    ensures |d| == 8 && b / 128 % 2 == d[0] && b / 64 % 2 == d[1] && b / 32 % 2 == d[2] && b / 16 % 2 == d[3]
  {
    assert b / 128 == d[0];
    assert b / 64 == 2 * d[0] + d[1];
    assert b / 32 == 2 * (2 * d[0] + d[1]) + d[2];
    assert b / 16 == 2 * (4 * d[0] + 2 * d[1] + d[2]) + d[3];
  }

  lemma LowDigits(d: seq<int>, b: byte)
    requires Binary(d, b)
    ensures |d| == 8 && b / 8 % 2 == d[4] && b / 4 % 2 == d[5] && b / 2 % 2 == d[6] && b % 2 == d[7]
  {
    var h := 8 * d[0] + 4 * d[1] + 2 * d[2] + d[3];
    var low := 8 * d[4] + 4 * d[5] + 2 * d[6] + d[7];
    assert b == 16 * h + low && 0 <= low < 16;
    assert b / 8 == 2 * h + d[4];
    assert b / 4 == 2 * (2 * h + d[4]) + d[5];
    assert b / 2 == 2 * (4 * h + 2 * d[4] + d[5]) + d[6];
  }

  lemma DigitsOf(b: byte) returns (d: seq<int>)
    ensures Binary(d, b)
  {
    BinaryDigits(b);
    d := [ByteBit(b, 0), ByteBit(b, 1), ByteBit(b, 2), ByteBit(b, 3),
          ByteBit(b, 4), ByteBit(b, 5), ByteBit(b, 6), ByteBit(b, 7)];
  }

  /** The `k`-th binary digit of a byte, counted from the highest. */
  function ByteBit(b: byte, k: nat): nat
    requires k < 8
  {
    b / Pow2(7 - k) % 2
  }

  lemma BitOfByte(data: bytes, j: nat, k: nat)
    requires j < |data| && k < 8
    ensures (8 * j + k) / 8 == j && GetBit(8 * j + k, data) == ByteBit(data[j], k)
  {
    hide Pow2;
    assert (8 * j + k) / 8 == j;
  }

  lemma BinaryDigits(b: byte)
    ensures b == 128 * ByteBit(b, 0) + 64 * ByteBit(b, 1) + 32 * ByteBit(b, 2) + 16 * ByteBit(b, 3)
               + 8 * ByteBit(b, 4) + 4 * ByteBit(b, 5) + 2 * ByteBit(b, 6) + ByteBit(b, 7)
  {
    hide Pow2;
    PowersOfTwo();
    assert b / 4 == b / 2 / 2 && b / 8 == b / 4 / 2 && b / 16 == b / 8 / 2 && b / 32 == b / 16 / 2;
    assert b / 64 == b / 32 / 2 && b / 128 == b / 64 / 2 && b / 128 / 2 == 0;
  }

  lemma PowersOfTwo()
    ensures Pow2(0) == 1 && Pow2(1) == 2 && Pow2(2) == 4 && Pow2(3) == 8
    ensures Pow2(4) == 16 && Pow2(5) == 32 && Pow2(6) == 64 && Pow2(7) == 128
  {
    assert Pow2(3) == 8;
    assert Pow2(6) == 8 * Pow2(3);
  }

  // ---------- search_for_resource_for_peer ----------

  /** The bitfield has a bit for the block's piece. */
  predicate Listed(block: ResourceBlock, bitfield: bytes) {
    block.pieceIndex / 8 < |bitfield|
  }

  predicate Offers(bitfield: bytes, block: ResourceBlock)
    requires Listed(block, bitfield)
  {
    GetBit(block.pieceIndex, bitfield) == 1
  }

  /** The peer has the block's piece: the piece's binary digit in its bitfield is set (BEP 3, section
      "peer messages"). */
  ghost predicate Available(block: ResourceBlock, bitfield: bytes)
    requires Listed(block, bitfield)
  {
    exists d :: Binary(d, bitfield[block.pieceIndex / 8]) && d[block.pieceIndex % 8] == 1
  }

  lemma OffersIsAvailable(bitfield: bytes, block: ResourceBlock)
    requires Listed(block, bitfield)
    ensures Offers(bitfield, block) <==> Available(block, bitfield)
    ensures forall d :: Binary(d, bitfield[block.pieceIndex / 8]) ==>
              (d[block.pieceIndex % 8] == 1 <==> Offers(bitfield, block))
  {
    hide GetBit, Binary;
    var digits := DigitsOf(bitfield[block.pieceIndex / 8]);
    OffersByDigit(bitfield, block, digits);
    forall d | Binary(d, bitfield[block.pieceIndex / 8])
      ensures |d| == 8 && (d[block.pieceIndex % 8] == 1 <==> Offers(bitfield, block))
    {
      OffersByDigit(bitfield, block, d);
    }
  }

  lemma OffersIff(bitfield: bytes, block: ResourceBlock)
    requires Listed(block, bitfield)
    ensures Offers(bitfield, block) <==> Available(block, bitfield)
  {
    hide Offers, Available, Binary;
    OffersIsAvailable(bitfield, block);
  }

  lemma OffersByDigit(bitfield: bytes, block: ResourceBlock, d: seq<int>)
    requires Listed(block, bitfield) && Binary(d, bitfield[block.pieceIndex / 8])
    ensures |d| == 8 && (d[block.pieceIndex % 8] == 1 <==> Offers(bitfield, block))
  {
    hide GetBit, Binary;
    EightDigits(d, bitfield[block.pieceIndex / 8]);
    GetBitIsDigit(block.pieceIndex, bitfield, d);
  }

  /** One search: the return code and the queue it leaves. Code 0 hands out the front block. */
  function Search(queue: seq<ResourceBlock>, bitfield: bytes): (int, seq<ResourceBlock>)
    requires queue != [] && Listed(queue[0], bitfield)
  {
    if Offers(bitfield, queue[0]) then (0, queue[1..]) else (1, queue[1..] + [queue[0]])
  }

  lemma QueuedIsFront(queue: ResourceQueue)
    requires queue.Valid()
    ensures queue.front == null <==> queue.Contents() == []
    ensures queue.front != null ==> queue.nodes != [] && queue.front.block == queue.Contents()[0]
  {
  }

  /** `search_for_resource_for_peer`, with its stop test as written and the queue shared with the
      caller. `resourceBlock` starts with whatever the variable holds. */
  method SearchForResource(bitfield: bytes, queue: ResourceQueue, resourceBlock: BlockCell, resourceOut: BlockCell)
    returns (r: int)
    requires queue.Valid() && queue.Contents() != [] && Listed(queue.Contents()[0], bitfield)
    requires resourceBlock != resourceOut
    modifies queue, queue.nodes, resourceBlock, resourceOut
    ensures queue.Valid()
    ensures r == 0 || r == 1
    ensures var front := old(queue.Contents())[0];
            forall d :: Binary(d, bitfield[front.pieceIndex / 8]) ==> (r == 0 <==> d[front.pieceIndex % 8] == 1)
    ensures queue.Contents()
         == if r == 0 then old(queue.Contents())[1..] else old(queue.Contents())[1..] + [old(queue.Contents())[0]]
    ensures (r, queue.Contents()) == Search(old(queue.Contents()), bitfield)
    ensures forall k :: 0 <= k < |queue.nodes| ==> queue.nodes[k] in old(queue.nodes) || fresh(queue.nodes[k])
    ensures resourceOut.block == if r == 0 then old(queue.Contents())[0] else old(resourceOut.block)
  {
    hide GetBit, Binary, Available, BlocksOf, ResourceQueue.Valid, ResourceQueue.Contents;
    QueuedIsFront(queue);
    OffersIsAvailable(bitfield, queue.Contents()[0]);
    var firstResourcePtr := queue.front.block.dataPtr;
    var isPieceAvailable := 0;
    var i := 0;
    ghost var before := queue.Contents();
    while isPieceAvailable == 0
      invariant 0 <= i <= 1 && queue.Valid() && before != []
      invariant i == 0 ==> isPieceAvailable == 0 && queue.Contents() == before && queue.nodes == old(queue.nodes)
      invariant i == 1 ==> resourceBlock.block == before[0]
      invariant i == 1 ==> isPieceAvailable == GetBit(before[0].pieceIndex, bitfield)
      invariant i == 1 ==> queue.Contents() == if isPieceAvailable == 0 then before[1..] + [before[0]] else before[1..]
      invariant resourceOut.block == old(resourceOut.block)
      invariant forall k :: 0 <= k < |queue.nodes| ==> queue.nodes[k] in old(queue.nodes) || fresh(queue.nodes[k])
      invariant firstResourcePtr == before[0].dataPtr
      decreases 1 - i
    {
      if i != 0 && resourceBlock.block.dataPtr == firstResourcePtr {
        return 1;
      }
      var _ := queue.PopInto(resourceBlock);
      isPieceAvailable := GetBit(resourceBlock.block.pieceIndex, bitfield);
      assert queue.nodes == old(queue.nodes)[1..];
      if isPieceAvailable == 0 {
        queue.Push(resourceBlock.block);
      }
      i := i + 1;
    }
    resourceOut.block := resourceBlock.block;
    return 0;
  }

  /** What the code 1 is documented to mean: no queued block is available. */
  ghost predicate NoneAvailable(queue: seq<ResourceBlock>, bitfield: bytes)
    requires forall b :: b in queue ==> Listed(b, bitfield)
  {
    forall b :: b in queue ==> !Available(b, bitfield)
  }

  /** The code tells the documented truth if and only if the front block is available or none is:
      the stop test ends the search at the first miss. */
  lemma SearchTruthful(queue: seq<ResourceBlock>, bitfield: bytes)
    requires queue != [] && forall b :: b in queue ==> Listed(b, bitfield)
    ensures (Search(queue, bitfield).0 == 1 <==> NoneAvailable(queue, bitfield))
       <==> Available(queue[0], bitfield) || NoneAvailable(queue, bitfield)
  {
    hide Offers, Available;
    OffersIff(bitfield, queue[0]);
    assert queue[0] in queue;
  }

  /** The queue after `k` searches in a row that all miss, and whether they do. */
  function Retry(queue: seq<ResourceBlock>, bitfield: bytes, k: nat): (bool, seq<ResourceBlock>)
    requires queue != [] && forall b :: b in queue ==> Listed(b, bitfield)
    ensures Retry(queue, bitfield, k).0 ==> multiset(Retry(queue, bitfield, k).1) == multiset(queue)
  {
    if k == 0 then (true, queue)
    else
      var (missed, q) := Retry(queue, bitfield, k - 1);
      if !missed then (false, q)
      else
        assert q[0] in multiset(q) && forall b :: b in q ==> b in multiset(q);
        var (r, q') := Search(q, bitfield);
        assert q == [q[0]] + q[1..];
        (r == 1, q')
  }

  /** Repeated searches turn the queue once round: after as many misses as there are unavailable
      blocks in front, the first available block is handed out and the others keep their cyclic
      order. */
  lemma {:induction false} RetryReachesFirst(queue: seq<ResourceBlock>, bitfield: bytes, j: nat, k: nat)
    requires queue != [] && forall b :: b in queue ==> Listed(b, bitfield)
    requires k <= j < |queue| && Available(queue[j], bitfield)
    requires forall i :: 0 <= i < j ==> !Available(queue[i], bitfield)
    ensures Retry(queue, bitfield, k) == (true, queue[k..] + queue[..k])
    ensures k == j ==> Search(queue[j..] + queue[..j], bitfield) == (0, queue[j + 1..] + queue[..j])
  {
    hide Retry, Offers, Available;
    OffersIff(bitfield, queue[k]);
    if k == 0 {
      RetryNone(queue, bitfield);
      assert queue[0..] + queue[..0] == queue;
    } else {
      OffersIff(bitfield, queue[k - 1]);
      RetryReachesFirst(queue, bitfield, j, k - 1);
      RetryStep(queue, bitfield, k, queue[k - 1..] + queue[..k - 1]);
      Rotated(queue, k);
    }
    if k == j {
      assert (queue[j..] + queue[..j])[1..] == queue[j + 1..] + queue[..j];
    }
  }

  lemma RetryNone(queue: seq<ResourceBlock>, bitfield: bytes)
    requires queue != [] && forall b :: b in queue ==> Listed(b, bitfield)
    ensures Retry(queue, bitfield, 0) == (true, queue)
  {
  }

  lemma RetryStep(queue: seq<ResourceBlock>, bitfield: bytes, k: nat, q: seq<ResourceBlock>)
    requires queue != [] && forall b :: b in queue ==> Listed(b, bitfield)
    requires k > 0 && Retry(queue, bitfield, k - 1) == (true, q)
    requires q != [] && Listed(q[0], bitfield)
    ensures Retry(queue, bitfield, k) == (Search(q, bitfield).0 == 1, Search(q, bitfield).1)
  {
    hide Search;
  }

  lemma Rotated(queue: seq<ResourceBlock>, k: nat)
    requires 0 < k < |queue|
    ensures var q := queue[k - 1..] + queue[..k - 1];
            q[0] == queue[k - 1] && q[1..] + [q[0]] == queue[k..] + queue[..k]
  {
  }

  // ---------- runs ----------

  datatype State = State(queued: seq<ResourceBlock>, handedOut: seq<ResourceBlock>)

  datatype Op =
    | Ask(bitfield: bytes) // search_for_resource_for_peer
    | Take                 // resource_queue_pop
    | PutBack(i: nat)      // resource_queue_push of a block handed out

  predicate Enabled(s: State, op: Op) {
    match op
    case Ask(bitfield) => s.queued != [] && Listed(s.queued[0], bitfield)
    case Take => s.queued != []
    case PutBack(i) => i < |s.handedOut|
  }

  function Next(s: State, op: Op): State
    requires Enabled(s, op)
  {
    match op
    case Ask(bitfield) =>
      var (r, queued) := Search(s.queued, bitfield);
      State(queued, if r == 0 then s.handedOut + [s.queued[0]] else s.handedOut)
    case Take => State(s.queued[1..], s.handedOut + [s.queued[0]])
    case PutBack(i) => State(s.queued + [s.handedOut[i]], s.handedOut[..i] + s.handedOut[i + 1..])
  }

  /** The state after a run, as far as its operations are enabled. */
  function Run(s: State, ops: seq<Op>): State
    decreases |ops|
  {
    if ops == [] || !Enabled(s, ops[0]) then s else Run(Next(s, ops[0]), ops[1..])
  }

  lemma RunTurn(s: State, ops: seq<Op>, i: nat)
    requires i < |ops|
    ensures Run(s, ops[i..]) == if Enabled(s, ops[i]) then Run(Next(s, ops[i]), ops[i + 1..]) else s
  {
    hide Next, Enabled;
    assert ops[i..][1..] == ops[i + 1..];
  }

  /** One operation on the linked queue itself; `out` are the blocks handed out. */
  method RunOp(queue: ResourceQueue, out: seq<ResourceBlock>, op: Op) returns (done: bool, out': seq<ResourceBlock>)
    requires queue.Valid()
    modifies queue, queue.nodes
    ensures queue.Valid()
    ensures forall k :: 0 <= k < |queue.nodes| ==> queue.nodes[k] in old(queue.nodes) || fresh(queue.nodes[k])
    ensures done <==> Enabled(State(old(queue.Contents()), out), op)
    ensures State(queue.Contents(), out')
         == if done then Next(State(old(queue.Contents()), out), op) else State(old(queue.Contents()), out)
  {
    hide BlocksOf, ResourceQueue.Valid, ResourceQueue.Contents;
    QueuedIsFront(queue);
    match op {
      case PutBack(i) =>
        if i >= |out| {
          return false, out;
        }
        queue.Push(out[i]);
        return true, out[..i] + out[i + 1..];
      case Take =>
        if queue.front == null {
          return false, out;
        }
        var taken := new BlockCell(queue.front.block);
        ghost var nodes := queue.nodes;
        var _ := queue.PopInto(taken);
        assert forall k :: 0 <= k < |queue.nodes| ==> queue.nodes[k] == nodes[k + 1];
        return true, out + [taken.block];
      case Ask(bitfield) =>
        if queue.front == null || queue.front.block.pieceIndex / 8 >= |bitfield| {
          return false, out;
        }
        var held := new BlockCell(queue.front.block);
        var found := new BlockCell(queue.front.block);
        var r := SearchForResource(bitfield, queue, held, found);
        return true, if r == 0 then out + [found.block] else out;
    }
  }

  /** A run on the linked queue: what it holds and what is out are those of `Run`. */
  method RunOps(queue: ResourceQueue, ops: seq<Op>) returns (handedOut: seq<ResourceBlock>)
    requires queue.Valid()
    modifies queue, queue.nodes
    ensures queue.Valid()
    ensures State(queue.Contents(), handedOut) == Run(State(old(queue.Contents()), []), ops)
  {
    hide ResourceQueue.Valid, ResourceQueue.Contents, Run, Next, Enabled;
    ghost var goal := Run(State(queue.Contents(), []), ops);
    handedOut := [];
    assert ops[0..] == ops;
    for i := 0 to |ops|
      invariant queue.Valid()
      invariant forall k :: 0 <= k < |queue.nodes| ==> queue.nodes[k] in old(queue.nodes) || fresh(queue.nodes[k])
      invariant goal == Run(State(queue.Contents(), handedOut), ops[i..])
    {
      RunTurn(State(queue.Contents(), handedOut), ops, i);
      var done;
      done, handedOut := RunOp(queue, handedOut, ops[i]);
      if !done {
        return;
      }
    }
    assert ops[|ops|..] == [];
    RunTurnNone(State(queue.Contents(), handedOut));
  }

  lemma RunTurnNone(s: State)
    ensures Run(s, []) == s
  {
  }

  function All(s: State): seq<ResourceBlock> {
    s.queued + s.handedOut
  }

  /** As many pops as there are blocks hand all of them out, in order. */
  lemma {:induction false} RunTakesAll(queued: seq<ResourceBlock>, out: seq<ResourceBlock>)
    ensures Run(State(queued, out), seq(|queued|, _ => Take)) == State([], out + queued)
    decreases |queued|
  {
    var ops := seq(|queued|, _ => Take);
    if queued == [] {
      assert out + [] == out;
    } else {
      RunTakesAll(queued[1..], out + [queued[0]]);
      assert ops[1..] == seq(|queued[1..]|, _ => Take);
      assert out + [queued[0]] + queued[1..] == out + queued;
    }
  }

  /** A peer that has every piece is handed every block, in order. */
  lemma {:induction false} SeederTakesAll(queued: seq<ResourceBlock>, out: seq<ResourceBlock>, bitfield: bytes)
    requires forall i :: 0 <= i < |bitfield| ==> bitfield[i] == 0xFF
    requires forall i :: 0 <= i < |queued| ==> queued[i].pieceIndex / 8 < |bitfield|
    ensures Run(State(queued, out), seq(|queued|, _ => Ask(bitfield))) == State([], out + queued)
    decreases |queued|
  {
    hide Offers;
    var ops := seq(|queued|, _ => Ask(bitfield));
    if queued == [] {
      assert out + [] == out;
    } else {
      OffersByDigit(bitfield, queued[0], [1, 1, 1, 1, 1, 1, 1, 1]);
      SeederTakesAll(queued[1..], out + [queued[0]], bitfield);
      assert ops[1..] == seq(|queued[1..]|, _ => Ask(bitfield));
      assert out + [queued[0]] + queued[1..] == out + queued;
    }
  }

  /** A block handed out and put back is at the back of the queue, and no longer out. */
  lemma PutBackReturns(queued: seq<ResourceBlock>, out: seq<ResourceBlock>, block: ResourceBlock,
                       out': seq<ResourceBlock>)
    ensures Run(State(queued, out + [block] + out'), [PutBack(|out|)]) == State(queued + [block], out + out')
  {
    var s, op := State(queued, out + [block] + out'), PutBack(|out|);
    assert s.handedOut[..|out|] == out && s.handedOut[|out| + 1..] == out';
    assert [op][1..] == [];
    RunTurnNone(Next(s, op));
  }

  lemma StepConserves(s: State, op: Op)
    requires Enabled(s, op)
    ensures multiset(All(Next(s, op))) == multiset(All(s))
  {
    if op.PutBack? {
      assert s.handedOut == s.handedOut[..op.i] + [s.handedOut[op.i]] + s.handedOut[op.i + 1..];
    } else {
      assert s.queued == [s.queued[0]] + s.queued[1..];
    }
  }

  /** Conservation: no run of operations loses or duplicates a block. */
  lemma {:induction false} RunConserves(s: State, ops: seq<Op>)
    ensures multiset(All(Run(s, ops))) == multiset(All(s))
    decreases |ops|
  {
    if ops == [] {
    } else if Enabled(s, ops[0]) {
      StepConserves(s, ops[0]);
      RunConserves(Next(s, ops[0]), ops[1..]);
    }
  }

  /** What all pairs of different blocks satisfy survives any rearrangement of distinct blocks. */
  lemma RearrangedApart(bs: seq<ResourceBlock>, cs: seq<ResourceBlock>)
    requires multiset(bs) == multiset(cs)
    requires forall i, j :: 0 <= i < j < |bs| ==> bs[i] != bs[j] && Apart(bs[i], bs[j])
    ensures forall i, j :: 0 <= i < j < |cs| ==> cs[i] != cs[j] && Apart(cs[i], cs[j])
  {
    forall i, j | 0 <= i < j < |cs| ensures cs[i] != cs[j] && Apart(cs[i], cs[j]) {
      Distinct(bs, cs[i]);
      if cs[i] == cs[j] {
        Repeated(cs, i, j);
        assert false;
      }
      assert cs[i] in multiset(bs) && cs[j] in multiset(bs);
      var a :| 0 <= a < |bs| && bs[a] == cs[i];
      var b :| 0 <= b < |bs| && bs[b] == cs[j];
    }
  }

  lemma {:induction false} Distinct(bs: seq<ResourceBlock>, b: ResourceBlock)
    requires forall i, j :: 0 <= i < j < |bs| ==> bs[i] != bs[j]
    ensures multiset(bs)[b] <= 1
    decreases |bs|
  {
    if bs == [] {
    } else {
      assert bs == [bs[0]] + bs[1..];
      Distinct(bs[1..], b);
      if bs[0] == b {
        assert b !in bs[1..];
      }
    }
  }

  lemma Repeated(cs: seq<ResourceBlock>, i: nat, j: nat)
    requires i < j < |cs| && cs[i] == cs[j]
    ensures multiset(cs)[cs[i]] >= 2
  {
    assert cs == cs[..j] + [cs[j]] + cs[j + 1..];
    assert cs[i] in cs[..j];
  }

  /** Over every run that starts with the work of one file, the blocks queued and the blocks handed
      out are together a rearrangement of that work: none is handed out twice or handed out while
      queued, and no two of them share memory. */
  lemma RunKeepsWorkApart(base: int, pieceSize: nat, pieceNum: nat, ops: seq<Op>)
    ensures var work := WorkBlocks(base, pieceSize, BLOCK_SIZE, pieceNum);
            var all := All(Run(State(work, []), ops));
            && multiset(all) == multiset(work)
            && forall i, j :: 0 <= i < j < |all| ==> all[i] != all[j] && Apart(all[i], all[j])
  {
    hide WorkBlocks, Run, Apart;
    var work := WorkBlocks(base, pieceSize, BLOCK_SIZE, pieceNum);
    RunConserves(State(work, []), ops);
    assert All(State(work, [])) == work;
    WorkBlocksApart(base, pieceSize, pieceNum);
    RearrangedApart(work, All(Run(State(work, []), ops)));
  }

  /** A block's bit is looked for in the byte of its own eight pieces: in the bitfield `80 00` piece 8
      is not set, in `00 80` it is. */
  lemma SecondByteCounts(block: ResourceBlock)
    requires block.pieceIndex == 8
    ensures Search([block], [0x80, 0]) == (1, [block]) && Search([block], [0, 0x80]) == (0, [])
  {
    hide Offers, Available;
    assert [block][1..] == [] && [] + [block] == [block];
    OffersByDigit([0x80, 0], block, [0, 0, 0, 0, 0, 0, 0, 0]);
    OffersByDigit([0, 0x80], block, [1, 0, 0, 0, 0, 0, 0, 0]);
  }

  /** A call whose code does not tell the documented truth: the second block is available, but the
      search gives up at the first. */
  lemma SecondBlockOverlooked(first: ResourceBlock, second: ResourceBlock)
    requires first.pieceIndex == 0 && second.pieceIndex == 1
    ensures Search([first, second], [0x40]).0 == 1 && !NoneAvailable([first, second], [0x40])
  {
    hide Offers, Available;
    OffersByDigit([0x40], first, [0, 1, 0, 0, 0, 0, 0, 0]);
    OffersByDigit([0x40], second, [0, 1, 0, 0, 0, 0, 0, 0]);
    OffersIsAvailable([0x40], second);
    assert second in [first, second];
  }
}
