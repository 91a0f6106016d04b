/** Filling the work queue with the blocks of a file (src/main.c). */
module Work {
  import opened WorkQueue

  const BLOCK_SIZE := 0x4000 // 1<<14

  // ---------- create_work ----------

  function Block(base: int, size: nat, offset: nat, pieceSize: nat): ResourceBlock
    requires pieceSize > 0
  {
    ResourceBlock(size, offset / pieceSize, offset, base + offset)
  }

  /** The first `n` full blocks. */
  function FullBlocks(base: int, pieceSize: nat, n: nat): (bs: seq<ResourceBlock>)
    requires n > 0 ==> pieceSize > 0
    ensures |bs| == n
    ensures forall i :: 0 <= i < n ==> bs[i] == Block(base, BLOCK_SIZE, i * BLOCK_SIZE, pieceSize)
  {
    if n == 0 then []
    else FullBlocks(base, pieceSize, n - 1) + [Block(base, BLOCK_SIZE, (n - 1) * BLOCK_SIZE, pieceSize)]
  }

  /** What `create_work` pushes. As in the C code the number of blocks and the size of the last come
      from `blockSize`, while the blocks before it are cut by BLOCK_SIZE. */
  function WorkBlocks(base: int, pieceSize: nat, blockSize: nat, pieceNum: nat): seq<ResourceBlock>
    requires blockSize > 0
  {
    var fileSize := pieceNum * pieceSize;
    var blockNum := fileSize / blockSize;
    var stray := fileSize - blockNum * blockSize;
    SomeFile(pieceNum, pieceSize, blockSize);
    FullBlocks(base, pieceSize, blockNum)
    + if stray > 0 then [Block(base, stray, blockNum * BLOCK_SIZE, pieceSize)] else []
  }

  lemma SomeFile(pieceNum: nat, pieceSize: nat, blockSize: nat)
    requires blockSize > 0
    ensures var fileSize := pieceNum * pieceSize;
            && fileSize >= 0
            && 0 <= fileSize - fileSize / blockSize * blockSize < blockSize
            && (fileSize > 0 ==> pieceSize > 0) && (fileSize / blockSize > 0 ==> fileSize > 0)
  {
  }

  lemma FullBlocksGrow(base: int, pieceSize: nat, n: nat)
    requires n > 0 ==> pieceSize > 0
    ensures FullBlocks(base, pieceSize, 0) == []
    ensures forall i: nat | i < n :: var next := Block(base, BLOCK_SIZE, i * BLOCK_SIZE, pieceSize);
                                    FullBlocks(base, pieceSize, i + 1) == FullBlocks(base, pieceSize, i) + [next]
  {
  }

  method CreateWork(piecesMem: int, queue: ResourceQueue, pieceSize: nat, blockSize: nat, pieceNum: nat)
    requires queue.Valid() && blockSize > 0
    modifies queue, queue.nodes
    ensures queue.Valid()
    ensures queue.Contents() == old(queue.Contents()) + WorkBlocks(piecesMem, pieceSize, blockSize, pieceNum)
    ensures CutBlocks(queue.Contents()[|old(queue.Contents())|..], piecesMem, pieceSize, blockSize,
                      pieceNum * pieceSize)
  {
    hide CutBlocks, FullBlocks, ResourceQueue.Valid, ResourceQueue.Contents;
    ghost var before := queue.Contents();
    WorkIsCut(piecesMem, pieceSize, blockSize, pieceNum);
    assert forall more :: (before + more)[|before|..] == more;
    SomeFile(pieceNum, pieceSize, blockSize);
    var fileSize := pieceNum * pieceSize;
    var blockNum := fileSize / blockSize;
    var strayBlockSize := fileSize - blockNum * blockSize;
    PushBlocks(piecesMem, queue, pieceSize, blockNum, strayBlockSize);
  }

  /** The loop of `create_work` and the branch for the last, short block. */
  method PushBlocks(piecesMem: int, queue: ResourceQueue, pieceSize: nat, blockNum: nat, strayBlockSize: nat)
    requires queue.Valid() && (blockNum > 0 || strayBlockSize > 0 ==> pieceSize > 0)
    modifies queue, queue.nodes
    ensures queue.Valid()
    ensures queue.Contents() == old(queue.Contents()) + FullBlocks(piecesMem, pieceSize, blockNum)
              + if strayBlockSize > 0 then [Block(piecesMem, strayBlockSize, blockNum * BLOCK_SIZE, pieceSize)] else []
  {
    hide BlocksOf, FullBlocks, ResourceQueue.Valid, ResourceQueue.Contents;
    FullBlocksGrow(piecesMem, pieceSize, blockNum);
    ghost var before := queue.Contents();
    ghost var oldNodes := queue.nodes;
    var i := 0;
    while i < blockNum
      invariant 0 <= i <= blockNum && queue.Valid()
      invariant |queue.nodes| >= |oldNodes| && queue.nodes[..|oldNodes|] == oldNodes
      invariant forall k :: |oldNodes| <= k < |queue.nodes| ==> fresh(queue.nodes[k])
      invariant queue.Contents() == before + FullBlocks(piecesMem, pieceSize, i)
    {
      var size := BLOCK_SIZE;
      var pieceOffset := i * size;
      queue.Push(ResourceBlock(size, pieceOffset / pieceSize, pieceOffset, piecesMem + pieceOffset));
      i := i + 1;
    }
    if strayBlockSize > 0 {
      var pieceOffset := i * BLOCK_SIZE;
      queue.Push(ResourceBlock(strayBlockSize, pieceOffset / pieceSize, pieceOffset, piecesMem + pieceOffset));
    }
  }

  /** The blocks stand one behind the other from `from` to `to`, none empty, each with the memory of
      its own place in the file. */
  predicate Tiles(bs: seq<ResourceBlock>, base: int, from: nat, to: nat) {
    if bs == [] then from == to
    else
      && bs[0].pieceOffset == from && bs[0].size > 0 && bs[0].dataPtr == base + from
      && Tiles(bs[1..], base, from + bs[0].size, to)
  }

  lemma {:induction false} TilesConcat(bs: seq<ResourceBlock>, cs: seq<ResourceBlock>, base: int, a: nat, b: nat,
                                       c: nat)
    requires Tiles(bs, base, a, b)
    ensures Tiles(bs + cs, base, a, c) <==> Tiles(cs, base, b, c)
  {
    if bs == [] {
      assert bs + cs == cs;
    } else {
      assert (bs + cs)[1..] == bs[1..] + cs;
      TilesConcat(bs[1..], cs, base, a + bs[0].size, b, c);
    }
  }

  lemma {:induction false} FullBlocksTile(base: int, pieceSize: nat, n: nat)
    requires n > 0 ==> pieceSize > 0
    ensures Tiles(FullBlocks(base, pieceSize, n), base, 0, n * BLOCK_SIZE)
  {
    if n == 0 {
    } else {
      FullBlocksTile(base, pieceSize, n - 1);
      var last := Block(base, BLOCK_SIZE, (n - 1) * BLOCK_SIZE, pieceSize);
      assert Tiles([last][1..], base, n * BLOCK_SIZE, n * BLOCK_SIZE);
      TilesConcat(FullBlocks(base, pieceSize, n - 1), [last], base, 0, (n - 1) * BLOCK_SIZE, n * BLOCK_SIZE);
    }
  }

  /** `create_work` cuts the file into adjacent blocks that cover it exactly if and only if it is
      called with the block size it cuts by, or the file is smaller than one block. */
  lemma WorkTilesExactly(base: int, pieceSize: nat, blockSize: nat, pieceNum: nat)
    requires blockSize > 0
    ensures Tiles(WorkBlocks(base, pieceSize, blockSize, pieceNum), base, 0, pieceNum * pieceSize)
       <==> blockSize == BLOCK_SIZE || pieceNum * pieceSize < blockSize
  {
    hide Tiles, FullBlocks, Block;
    SomeFile(pieceNum, pieceSize, blockSize);
    var fileSize := pieceNum * pieceSize;
    var n := fileSize / blockSize;
    var stray, cut := fileSize - n * blockSize, n * BLOCK_SIZE;
    var tail := if stray > 0 then [Block(base, stray, cut, pieceSize)] else [];
    FullBlocksTile(base, pieceSize, n);
    TilesConcat(FullBlocks(base, pieceSize, n), tail, base, 0, cut, fileSize);
    TailTiles(base, stray, cut, pieceSize, fileSize);
    SameCut(n, blockSize);
    NoWholeBlock(fileSize, blockSize);
  }

  lemma TailTiles(base: int, stray: nat, cut: nat, pieceSize: nat, to: nat)
    requires stray > 0 ==> pieceSize > 0
    ensures Tiles(if stray > 0 then [Block(base, stray, cut, pieceSize)] else [], base, cut, to) <==> cut + stray == to
  {
    if stray > 0 {
      assert [Block(base, stray, cut, pieceSize)][1..] == [];
    }
  }

  lemma NoWholeBlock(fileSize: nat, blockSize: nat)
    requires blockSize > 0
    ensures fileSize / blockSize == 0 <==> fileSize < blockSize
  {
  }

  lemma SameCut(n: nat, blockSize: nat)
    ensures n * BLOCK_SIZE == n * blockSize <==> n == 0 || blockSize == BLOCK_SIZE
  {
    if n > 0 && blockSize < BLOCK_SIZE {
      assert n * (BLOCK_SIZE - blockSize) > 0;
    } else if n > 0 && blockSize > BLOCK_SIZE {
      assert n * (blockSize - BLOCK_SIZE) > 0;
    }
  }

  predicate Covers(b: ResourceBlock, x: int) {
    b.pieceOffset <= x < b.pieceOffset + b.size
  }

  predicate Covered(bs: seq<ResourceBlock>, x: int) {
    exists i :: 0 <= i < |bs| && Covers(bs[i], x)
  }

  /** In a tiling every byte of the file lies in one block and in no other. */
  lemma {:induction false} TilesCoverOnce(bs: seq<ResourceBlock>, base: int, from: nat, to: nat)
    requires Tiles(bs, base, from, to)
    ensures from <= to
    ensures forall i :: 0 <= i < |bs| ==> from <= bs[i].pieceOffset && bs[i].pieceOffset + bs[i].size <= to
    ensures forall i, j :: 0 <= i < j < |bs| ==> bs[i].pieceOffset + bs[i].size <= bs[j].pieceOffset
    ensures forall x :: from <= x < to ==> Covered(bs, x)
    decreases |bs|
  {
    if bs == [] {
    } else {
      var next := from + bs[0].size;
      TilesCoverOnce(bs[1..], base, next, to);
      forall i | 0 < i < |bs| ensures next <= bs[i].pieceOffset && bs[i].pieceOffset + bs[i].size <= to {
        assert bs[i] == bs[1..][i - 1];
      }
      forall i, j | 0 < i < j < |bs| ensures bs[i].pieceOffset + bs[i].size <= bs[j].pieceOffset {
        assert bs[i] == bs[1..][i - 1] && bs[j] == bs[1..][j - 1];
      }
      forall x | from <= x < to ensures Covered(bs, x) {
        if x < next {
          assert Covers(bs[0], x);
        } else {
          assert Covered(bs[1..], x);
          var i :| 0 <= i < |bs[1..]| && Covers(bs[1..][i], x);
          assert Covers(bs[i + 1], x);
        }
      }
    }
  }

  /** The memory of two blocks does not overlap. */
  predicate Apart(a: ResourceBlock, b: ResourceBlock) {
    a.dataPtr + a.size <= b.dataPtr || b.dataPtr + b.size <= a.dataPtr
  }

  /** Distinct blocks of one file's work have memory apart, and each names the piece its
      first byte lies in. */
  lemma WorkBlocksApart(base: int, pieceSize: nat, pieceNum: nat)
    ensures var bs := WorkBlocks(base, pieceSize, BLOCK_SIZE, pieceNum);
            && (forall i, j :: 0 <= i < j < |bs| ==> bs[i] != bs[j] && Apart(bs[i], bs[j]))
            && (forall i :: 0 <= i < |bs| - 1 ==> bs[i].size == BLOCK_SIZE)
            && (forall i :: 0 <= i < |bs| ==> 0 < bs[i].size <= BLOCK_SIZE && bs[i].pieceIndex < pieceNum)
            && (forall i :: 0 <= i < |bs| ==>
                  bs[i].pieceIndex * pieceSize <= bs[i].pieceOffset < (bs[i].pieceIndex + 1) * pieceSize)
  {
    var bs, fileSize := WorkBlocks(base, pieceSize, BLOCK_SIZE, pieceNum), pieceNum * pieceSize;
    SomeFile(pieceNum, pieceSize, BLOCK_SIZE);
    WorkTilesExactly(base, pieceSize, BLOCK_SIZE, pieceNum);
    TilesCoverOnce(bs, base, 0, fileSize);
    TilesAddresses(bs, base, 0, fileSize);
    forall i | 0 <= i < |bs|
      ensures bs[i].pieceIndex < pieceNum
      ensures bs[i].pieceIndex * pieceSize <= bs[i].pieceOffset < (bs[i].pieceIndex + 1) * pieceSize
    {
      assert bs[i].pieceIndex == bs[i].pieceOffset / pieceSize;
      PieceOfOffset(bs[i].pieceOffset, pieceSize, pieceNum);
    }
  }

  lemma {:induction false} TilesAddresses(bs: seq<ResourceBlock>, base: int, from: nat, to: nat)
    requires Tiles(bs, base, from, to)
    ensures forall i :: 0 <= i < |bs| ==> bs[i].dataPtr == base + bs[i].pieceOffset && bs[i].size > 0
    decreases |bs|
  {
    if bs == [] {
    } else {
      TilesAddresses(bs[1..], base, from + bs[0].size, to);
      forall i | 0 < i < |bs| ensures bs[i].dataPtr == base + bs[i].pieceOffset && bs[i].size > 0 {
        assert bs[i] == bs[1..][i - 1];
      }
    }
  }

  lemma PieceOfOffset(offset: nat, pieceSize: nat, pieceNum: nat)
    requires offset < pieceNum * pieceSize
    ensures pieceSize > 0 && offset / pieceSize < pieceNum
    ensures offset / pieceSize * pieceSize <= offset < (offset / pieceSize + 1) * pieceSize
  {
    assert pieceSize > 0;
    Multiples(pieceNum, offset / pieceSize, pieceSize);
  }

  lemma Multiples(a: nat, b: nat, d: nat)
    ensures a <= b ==> a * d <= b * d
  {
    if a <= b {
      assert b * d == a * d + (b - a) * d;
    }
  }

  /** When the block size divides the piece size, every piece is cut into the same number of
      consecutive whole blocks, and no block crosses into another piece. */
  lemma PiecesCutEvenly(base: int, perPiece: nat, pieceNum: nat)
    requires perPiece > 0
    ensures var pieceSize := perPiece * BLOCK_SIZE;
            var bs := WorkBlocks(base, pieceSize, BLOCK_SIZE, pieceNum);
            && |bs| == pieceNum * perPiece
            && forall i :: 0 <= i < |bs| ==>
                 && bs[i].size == BLOCK_SIZE && bs[i].pieceIndex == i / perPiece
                 && bs[i].pieceIndex * pieceSize <= bs[i].pieceOffset
                 && bs[i].pieceOffset + bs[i].size <= (bs[i].pieceIndex + 1) * pieceSize
  {
    var pieceSize := perPiece * BLOCK_SIZE;
    var n := pieceNum * perPiece;
    SomeFile(pieceNum, pieceSize, BLOCK_SIZE);
    assert pieceNum * pieceSize == n * BLOCK_SIZE;
    assert n * BLOCK_SIZE / BLOCK_SIZE == n;
    var bs := WorkBlocks(base, pieceSize, BLOCK_SIZE, pieceNum);
    assert bs == FullBlocks(base, pieceSize, n);
    forall i | 0 <= i < |bs|
      ensures bs[i].pieceIndex == i / perPiece
      ensures bs[i].pieceIndex * pieceSize <= bs[i].pieceOffset
      ensures bs[i].pieceOffset + bs[i].size <= (bs[i].pieceIndex + 1) * pieceSize
    {
      PieceOfBlock(i, perPiece);
    }
  }

  lemma PieceOfBlock(i: nat, perPiece: nat)
    requires perPiece > 0
    ensures var size := perPiece * BLOCK_SIZE;
            var p := i / perPiece;
            && i * BLOCK_SIZE / size == p && p * size <= i * BLOCK_SIZE && i * BLOCK_SIZE + BLOCK_SIZE <= (p + 1) * size
  {
    var size, p, r := perPiece * BLOCK_SIZE, i / perPiece, i % perPiece;
    assert i == p * perPiece + r && r < perPiece;
    assert p * perPiece * BLOCK_SIZE == p * size;
    assert i * BLOCK_SIZE == p * size + r * BLOCK_SIZE;
    assert (r + 1) * BLOCK_SIZE <= size;
    QuotientIs(i * BLOCK_SIZE, size, p, r * BLOCK_SIZE);
  }

  lemma QuotientIs(a: nat, d: nat, q: nat, r: nat)
    requires 0 <= r < d && a == q * d + r
    ensures a / d == q
  {
    var q' := a / d;
    assert q' * d <= a < q' * d + d;
    Multiples(q' + 1, q, d);
    Multiples(q + 1, q', d);
  }

  /** A call on which `create_work` does not tile the file: blocks of 32 KiB asked for, one cut. */
  lemma LargerBlocksLeaveGaps()
    ensures !Tiles(WorkBlocks(0, 0x8000, 0x8000, 1), 0, 0, 0x8000)
  {
    hide Tiles, WorkBlocks;
    WorkTilesExactly(0, 0x8000, 0x8000, 1);
    assert 1 * 0x8000 == 0x8000;
  }

  /** Block `i` of what `create_work` pushes, in numbers: 16 KiB, or what the block size asked for
      leaves for the last, at a multiple of 16 KiB, with the memory and the piece of its first byte. */
  function CutBlock(base: int, pieceSize: nat, blockSize: nat, fileSize: int, i: nat): ResourceBlock
    requires pieceSize > 0 && i * blockSize < fileSize
  {
    var left, offset := fileSize - i * blockSize, i * 0x4000;
    ResourceBlock(if left >= blockSize then 0x4000 else left, offset / pieceSize, offset, base + offset)
  }

  /** As many blocks as the block size asked for needs for the file. */
  predicate CutBlocks(bs: seq<ResourceBlock>, base: int, pieceSize: nat, blockSize: nat, fileSize: int)
    requires blockSize > 0
  {
    && |bs| == (fileSize + blockSize - 1) / blockSize
    && (bs != [] ==> pieceSize > 0)
    && forall i :: 0 <= i < |bs| ==>
         i * blockSize < fileSize && bs[i] == CutBlock(base, pieceSize, blockSize, fileSize, i)
  }

  lemma WorkIsCut(base: int, pieceSize: nat, blockSize: nat, pieceNum: nat)
    requires blockSize > 0
    ensures CutBlocks(WorkBlocks(base, pieceSize, blockSize, pieceNum), base, pieceSize, blockSize,
                      pieceNum * pieceSize)
  {
    hide CutBlocks, FullBlocks, Block;
    var fileSize := pieceNum * pieceSize;
    SomeFile(pieceNum, pieceSize, blockSize);
    var n := fileSize / blockSize;
    BlocksAre(base, pieceSize, blockSize, fileSize, n, fileSize - n * blockSize);
  }

  lemma BlocksAre(base: int, pieceSize: nat, blockSize: nat, fileSize: nat, n: nat, stray: nat)
    requires fileSize == n * blockSize + stray && stray < blockSize
    requires n > 0 || stray > 0 ==> pieceSize > 0
    ensures CutBlocks(FullBlocks(base, pieceSize, n)
                      + if stray > 0 then [Block(base, stray, n * BLOCK_SIZE, pieceSize)] else [],
                      base, pieceSize, blockSize, fileSize)
  {
    hide FullBlocks;
    var last := if stray > 0 then [Block(base, stray, n * BLOCK_SIZE, pieceSize)] else [];
    var bs := FullBlocks(base, pieceSize, n) + last;
    Quotient(fileSize, blockSize, n, stray);
    forall i | 0 <= i < |bs|
      ensures i * blockSize < fileSize && bs[i] == CutBlock(base, pieceSize, blockSize, fileSize, i)
    {
      LeftOver(i, n, blockSize, stray);
    }
  }

  lemma Quotient(fileSize: nat, blockSize: nat, n: nat, stray: nat)
    requires fileSize == n * blockSize + stray && stray < blockSize
    ensures (fileSize + blockSize - 1) / blockSize == if stray > 0 then n + 1 else n
  {
    if stray > 0 {
      QuotientIs(fileSize + blockSize - 1, blockSize, n + 1, stray - 1);
    } else {
      QuotientIs(fileSize + blockSize - 1, blockSize, n, blockSize - 1);
    }
  }

  lemma LeftOver(i: nat, n: nat, blockSize: nat, stray: nat)
    requires stray < blockSize && (i < n || (i == n && stray > 0))
    ensures var left := n * blockSize + stray - i * blockSize;
            left > 0 && (left >= blockSize <==> i < n) && (i == n ==> left == stray)
  {
    if i < n {
      assert n * blockSize - i * blockSize == (n - i) * blockSize;
      Multiples(1, n - i, blockSize);
    }
  }

  /** With the block size the program asks for, 16 KiB, the file is tiled: every block but the last
      is of that size, and the last holds the rest. */
  lemma SixteenKiBTile(base: int, pieceSize: nat, pieceNum: nat)
    ensures var bs := WorkBlocks(base, pieceSize, 0x4000, pieceNum);
            && Tiles(bs, base, 0, pieceNum * pieceSize)
            && CutBlocks(bs, base, pieceSize, 0x4000, pieceNum * pieceSize)
            && forall i :: 0 <= i < |bs| - 1 ==> bs[i].size == 0x4000
  {
    hide Tiles, CutBlocks;
    SomeFile(pieceNum, pieceSize, 0x4000);
    WorkTilesExactly(base, pieceSize, 0x4000, pieceNum);
    WorkIsCut(base, pieceSize, 0x4000, pieceNum);
    WorkBlocksApart(base, pieceSize, pieceNum);
  }

  /** The program's own call counts the whole pieces only (src/main.c:461-464): its blocks tile the
      file of the torrent if and only if the piece length divides the file's. */
  lemma DownloadCoversFile(base: int, length: nat, pieceLength: nat)
    requires pieceLength > 0
    ensures Tiles(WorkBlocks(base, pieceLength, 0x4000, length / pieceLength), base, 0, length)
       <==> length % pieceLength == 0
  {
    hide Tiles, WorkBlocks;
    var n := length / pieceLength;
    WorkTilesExactly(base, pieceLength, 0x4000, n);
    assert length == n * pieceLength + length % pieceLength;
    TilesEnd(WorkBlocks(base, pieceLength, 0x4000, n), base, 0, n * pieceLength, length);
  }

  lemma {:induction false} TilesEnd(bs: seq<ResourceBlock>, base: int, from: nat, to: nat, to': nat)
    requires Tiles(bs, base, from, to)
    ensures Tiles(bs, base, from, to') <==> to == to'
    decreases |bs|
  {
    if bs == [] {
    } else {
      TilesEnd(bs[1..], base, from + bs[0].size, to, to');
    }
  }
}
