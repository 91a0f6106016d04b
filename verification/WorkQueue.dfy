/** The download work queue of src/main.c: a linked FIFO of blocks. */
module WorkQueue {
  /** `struct ResourceBlock`; `dataPtr` is the address of the block's memory. */
  datatype ResourceBlock = ResourceBlock(size: nat, pieceIndex: nat, pieceOffset: nat, dataPtr: int)

  /** A variable of type `struct ResourceBlock` whose address is passed. */
  class BlockCell {
    var block: ResourceBlock

    constructor (block: ResourceBlock)
      ensures this.block == block
    {
      this.block := block;
    }
  }

  class Node {
    var block: ResourceBlock
    var next: Node?

    constructor (block: ResourceBlock)
      ensures this.block == block && next == null
    {
      this.block := block;
      next := null;
    }
  }

  ghost function BlocksOf(nodes: seq<Node>): (bs: seq<ResourceBlock>)
    reads nodes
    ensures |bs| == |nodes| && forall i :: 0 <= i < |nodes| ==> bs[i] == nodes[i].block
  {
    if nodes == [] then [] else [nodes[0].block] + BlocksOf(nodes[1..])
  }

  class ResourceQueue {
    var front: Node?
    var back: Node?
    ghost var nodes: seq<Node>

    /** The chain from `front` is acyclic and ends at `back`. */
    ghost predicate Valid()
      reads this, nodes
    {
      && (nodes == [] ==> front == null && back == null)
      && (nodes != [] ==> front == nodes[0] && back == nodes[|nodes| - 1] && nodes[|nodes| - 1].next == null)
      && (forall i, j :: 0 <= i < |nodes| - 1 && j == i + 1 ==> nodes[i].next == nodes[j])
      && (forall i, j :: 0 <= i < j < |nodes| ==> nodes[i] != nodes[j])
    }

    ghost function Contents(): seq<ResourceBlock>
      reads this, nodes
    {
      BlocksOf(nodes)
    }

    /** `resource_queue_create`. */
    constructor ()
      ensures Valid() && Contents() == [] && nodes == []
    {
      front, back, nodes := null, null, [];
    }

    /** `resource_queue_push`. */
    method Push(block: ResourceBlock)
      requires Valid()
      modifies this, nodes
      ensures Valid() && Contents() == old(Contents()) + [block]
      ensures |nodes| == |old(nodes)| + 1 && nodes[..|old(nodes)|] == old(nodes) && fresh(nodes[|old(nodes)|])
    {
      var node := new Node(block);
      if back != null {
        back.next := node;
      }
      back := node;
      if front == null {
        front := node;
      }
      nodes := nodes + [node];
    }

    /** `resource_queue_pop` as written: it takes the front off and never writes `*resource_out`. */
    method Pop(resourceOut: BlockCell) returns (r: int)
      requires Valid()
      modifies this
      ensures Valid()
      ensures r == if old(Contents()) == [] then -1 else 0
      ensures r == -1 ==> Contents() == [] && nodes == []
      ensures r == 0 ==> Contents() == old(Contents())[1..] && nodes == old(nodes)[1..]
      ensures resourceOut.block == old(resourceOut.block)
    {
      if front == null {
        return -1;
      }
      front := front.next;
      nodes := nodes[1..];
      if front == null {
        back := null;
      }
      return 0;
    }

    /** `resource_queue_pop` as its caller relies on it: the block taken off is delivered. */
    method PopInto(resourceOut: BlockCell) returns (r: int)
      requires Valid()
      modifies this, resourceOut
      ensures Valid()
      ensures r == if old(Contents()) == [] then -1 else 0
      ensures r == -1 ==> Contents() == [] && nodes == [] && resourceOut.block == old(resourceOut.block)
      ensures r == 0 ==> Contents() == old(Contents())[1..] && nodes == old(nodes)[1..]
      ensures r == 0 ==> resourceOut.block == old(Contents())[0]
    {
      if front != null {
        resourceOut.block := front.block;
      }
      r := Pop(resourceOut);
    }

    /** `resource_queue_free`: visits every remaining node once, in order. */
    method Free() returns (freed: seq<Node>)
      requires Valid()
      ensures freed == nodes
    {
      freed := [];
      var node := front;
      while node != null
        invariant |freed| <= |nodes| && freed == nodes[..|freed|]
        invariant node == if |freed| < |nodes| then nodes[|freed|] else null
        decreases |nodes| - |freed|
      {
        var next := node.next;
        freed := freed + [node];
        node := next;
      }
    }
  }

  /** The front and the back are null together, and exactly when the queue is empty. */
  lemma EndsNullTogether(q: ResourceQueue)
    requires q.Valid()
    ensures (q.front == null <==> q.back == null) && (q.front == null <==> q.Contents() == [])
  {
  }
}
