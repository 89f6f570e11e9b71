/** Cutting a file into blocks (block_service.cpp). */
module Tiling {
  datatype BlockState = Completed | Failed | InTransfer | Waiting | Unknown

  datatype Block = Block(fileId: int, taskId: int, offset: int, blockSize: int, state: BlockState)

  datatype Tile = Tile(offset: int, size: int)

  /** The size of the block that starts at offset. */
  function SizeAt(fileSize: int, blockBytes: int, offset: int): int {
    if fileSize - offset >= blockBytes then blockBytes else fileSize - offset
  }

  /** The tiles from an offset on. */
  function Tiles(fileSize: int, blockBytes: int, offset: int): seq<Tile>
    requires blockBytes > 0 || offset >= fileSize
    decreases fileSize - offset
  {
    if offset >= fileSize then []
    else
      var size := SizeAt(fileSize, blockBytes, offset);
      [Tile(offset, size)] + Tiles(fileSize, blockBytes, offset + size)
  }

  /** The loop's offset after n rounds. */
  function OffsetAfter(fileSize: int, blockBytes: int, n: nat): int {
    if n == 0 then 0
    else
      var offset := OffsetAfter(fileSize, blockBytes, n - 1);
      if offset < fileSize then offset + SizeAt(fileSize, blockBytes, offset) else offset
  }

  predicate Covers(t: Tile, position: int) {
    t.offset <= position < t.offset + t.size
  }

  predicate IsRowOf(b: Block, taskId: int, fileId: int, t: Tile) {
    b.taskId == taskId && b.fileId == fileId && b.offset == t.offset && b.blockSize == t.size
  }

  /** Every tile of the file has a row of the task. */
  ghost predicate IsTiled(blocks: map<int, Block>, taskId: int, fileId: int, fileSize: int, blockBytes: int)
    requires blockBytes > 0 || fileSize <= 0
  {
    forall t | t in Tiles(fileSize, blockBytes, 0) :: exists id | id in blocks :: IsRowOf(blocks[id], taskId, fileId, t)
  }

  // ---------------------------------------------------------------- the service

  class BlockService {
    var blocks: map<int, Block>
    var nextId: int

    ghost predicate Valid()
      reads this
    {
      forall id :: id in blocks ==> id < nextId
    }

    constructor ()
      ensures Valid() && blocks == map[] && nextId == 1
    {
      blocks := map[];
      nextId := 1;
    }

    /** Stores one block under a new id, unless the database refuses. */
    method AddBlock(block: Block, accepted: bool) returns (ok: bool)
      requires Valid()
      modifies this
      ensures Valid() && ok == accepted
      ensures blocks == (if accepted then old(blocks)[old(nextId) := block] else old(blocks))
      ensures nextId == (if accepted then old(nextId) + 1 else old(nextId))
    {
      if accepted {
        blocks := blocks[nextId := block];
        nextId := nextId + 1;
      }
      return accepted;
    }

    /** Tiles the file. refusedAt is the number of the first block that the database refuses. */
    method Add(fileId: int, fileSize: int, taskId: int, blockBytes: int, refusedAt: nat) returns (ok: bool)
      requires Valid() && (blockBytes > 0 || fileSize <= 0)
      modifies this
      ensures Valid()
      ensures ok ==> IsTiled(blocks, taskId, fileId, fileSize, blockBytes)
      ensures var tiles := Tiles(fileSize, blockBytes, 0);
              var n := if refusedAt < |tiles| then refusedAt else |tiles|;
              && (ok <==> n == |tiles|)
              && nextId == old(nextId) + n
              && (forall id :: id in blocks <==> id in old(blocks) || old(nextId) <= id < nextId)
              && (forall id :: id in old(blocks) ==> blocks[id] == old(blocks)[id])
              && forall k :: 0 <= k < n ==>
                   blocks[old(nextId) + k] == Block(fileId, taskId, tiles[k].offset, tiles[k].size, Waiting)
    {
      var offset := 0;
      var count := 0;
      ghost var tiles := Tiles(fileSize, blockBytes, 0);
      while offset < fileSize
        invariant Valid()
        invariant count <= |tiles| && count <= refusedAt
        invariant tiles[count..] == Tiles(fileSize, blockBytes, offset)
        invariant nextId == old(nextId) + count
        invariant forall id :: id in blocks <==> id in old(blocks) || old(nextId) <= id < nextId
        invariant forall id :: id in old(blocks) ==> blocks[id] == old(blocks)[id]
        invariant forall k :: 0 <= k < count ==>
                    blocks[old(nextId) + k] == Block(fileId, taskId, tiles[k].offset, tiles[k].size, Waiting)
        decreases fileSize - offset
      {
        var size := if fileSize - offset >= blockBytes then blockBytes else fileSize - offset;
        assert tiles[count] == tiles[count..][0] == Tile(offset, size);
        assert tiles[count + 1..] == tiles[count..][1..];
        offset := offset + size;
        ok := AddBlock(Block(fileId, taskId, offset - size, size, Waiting), count != refusedAt);
        if !ok {
          return false;
        }
        count := count + 1;
      }
      assert |tiles| == count;
      forall t | t in tiles ensures exists id | id in blocks :: IsRowOf(blocks[id], taskId, fileId, t) {
        var k :| 0 <= k < |tiles| && tiles[k] == t;
        assert IsRowOf(blocks[old(nextId) + k], taskId, fileId, t);
      }
      return true;
    }
  }

  // ---------------------------------------------------------------- properties of the tiling

  /** The tiles follow each other without gap or overlap, and none is empty or larger than a block. */
  lemma {:induction false} TilesAreConsecutive(fileSize: int, blockBytes: int, offset: int)
    requires blockBytes > 0
    ensures var tiles := Tiles(fileSize, blockBytes, offset);
            && (forall k :: 0 <= k < |tiles| ==> 0 < tiles[k].size <= blockBytes)
            && (forall k :: 0 <= k < |tiles| - 1 ==> tiles[k + 1].offset == tiles[k].offset + tiles[k].size)
            && (offset < fileSize ==>
                  && |tiles| > 0 && tiles[0].offset == offset
                  && tiles[|tiles| - 1].offset + tiles[|tiles| - 1].size == fileSize)
    decreases fileSize - offset
  {
    if offset < fileSize {
      var size := SizeAt(fileSize, blockBytes, offset);
      TilesAreConsecutive(fileSize, blockBytes, offset + size);
    }
  }

  predicate CoveredIn(tiles: seq<Tile>, position: int) {
    exists k | 0 <= k < |tiles| :: Covers(tiles[k], position)
  }

  predicate CoveredOnce(tiles: seq<Tile>, position: int) {
    forall j, k | 0 <= j < |tiles| && 0 <= k < |tiles| ::
      Covers(tiles[j], position) && Covers(tiles[k], position) ==> j == k
  }

  lemma CoveredByHeadOrRest(t: Tile, rest: seq<Tile>, position: int)
    ensures CoveredIn([t] + rest, position) <==> Covers(t, position) || CoveredIn(rest, position)
  {
    hide Covers;
    var tiles := [t] + rest;
    if Covers(t, position) {
      assert Covers(tiles[0], position);
    }
    if k :| 0 <= k < |rest| && Covers(rest[k], position) {
      assert tiles[k + 1] == rest[k];
    }
    if k :| 0 <= k < |tiles| && Covers(tiles[k], position) {
      assert tiles[k] == if k == 0 then t else rest[k - 1];
    }
  }

  lemma CoveredOnceByHeadOrRest(t: Tile, rest: seq<Tile>, position: int)
    requires CoveredOnce(rest, position) && !(Covers(t, position) && CoveredIn(rest, position))
    ensures CoveredOnce([t] + rest, position)
  {
    hide Covers;
    var tiles := [t] + rest;
    forall j, k | 0 <= j < |tiles| && 0 <= k < |tiles| && Covers(tiles[j], position) && Covers(tiles[k], position)
      ensures j == k
    {
      assert tiles[j] == if j == 0 then t else rest[j - 1];
      assert tiles[k] == if k == 0 then t else rest[k - 1];
    }
  }

  /** Every position of the file lies in exactly one tile, and no tile reaches outside the file. */
  lemma {:induction false} TilesPartition(fileSize: int, blockBytes: int, offset: int, position: int)
    requires blockBytes > 0
    ensures CoveredIn(Tiles(fileSize, blockBytes, offset), position) <==> offset <= position < fileSize
    ensures CoveredOnce(Tiles(fileSize, blockBytes, offset), position)
    decreases fileSize - offset
  {
    if offset < fileSize {
      hide CoveredIn, CoveredOnce;
      var size := SizeAt(fileSize, blockBytes, offset);
      var rest := Tiles(fileSize, blockBytes, offset + size);
      TilesPartition(fileSize, blockBytes, offset + size, position);
      CoveredByHeadOrRest(Tile(offset, size), rest, position);
      CoveredOnceByHeadOrRest(Tile(offset, size), rest, position);
    }
  }

  /** There are ceil((fileSize - offset) / blockBytes) tiles, and all but the last have full size. */
  lemma {:induction false} TileCount(fileSize: int, blockBytes: int, offset: int)
    requires blockBytes > 0 && offset <= fileSize
    ensures var n := |Tiles(fileSize, blockBytes, offset)|;
            (n - 1) * blockBytes < fileSize - offset <= n * blockBytes || (n == 0 && offset == fileSize)
    decreases fileSize - offset
  {
    if offset < fileSize {
      var size := SizeAt(fileSize, blockBytes, offset);
      TileCount(fileSize, blockBytes, offset + size);
      var m := |Tiles(fileSize, blockBytes, offset + size)|;
      assert (m + 1) * blockBytes == m * blockBytes + blockBytes;
      assert (m - 1) * blockBytes == m * blockBytes - blockBytes;
    }
  }

  /** The sizes that occur: full blocks when there is room for one, and the remainder. */
  lemma {:induction false} TileSizes(fileSize: int, blockBytes: int, offset: int)
    requires blockBytes > 0 && offset <= fileSize
    ensures forall t :: t in Tiles(fileSize, blockBytes, offset) ==>
              t.size == blockBytes || t.size == (fileSize - offset) % blockBytes
    ensures fileSize - offset >= blockBytes ==>
              exists t :: t in Tiles(fileSize, blockBytes, offset) && t.size == blockBytes
    ensures (fileSize - offset) % blockBytes != 0 ==>
              exists t :: t in Tiles(fileSize, blockBytes, offset) && t.size == (fileSize - offset) % blockBytes
    decreases fileSize - offset
  {
    var rest := fileSize - offset;
    if rest > 0 {
      var tiles := Tiles(fileSize, blockBytes, offset);
      var size := SizeAt(fileSize, blockBytes, offset);
      TileSizes(fileSize, blockBytes, offset + size);
      assert tiles == [Tile(offset, size)] + Tiles(fileSize, blockBytes, offset + size);
      assert tiles[0] in tiles;
      if rest >= blockBytes {
        RemainderAfterBlock(rest, blockBytes);
      } else {
        assert rest % blockBytes == rest;
      }
    }
  }

  lemma RemainderAfterBlock(rest: int, blockBytes: int)
    requires 0 < blockBytes <= rest
    ensures (rest - blockBytes) % blockBytes == rest % blockBytes
  {
    var q := rest / blockBytes;
    assert (q - 1) * blockBytes == q * blockBytes - blockBytes;
    SameRemainder(blockBytes, q - 1, rest % blockBytes, (rest - blockBytes) / blockBytes,
                  (rest - blockBytes) % blockBytes);
  }

  lemma SameRemainder(d: int, q: int, r: int, p: int, s: int)
    requires d > 0 && 0 <= r < d && 0 <= s < d && q * d + r == p * d + s
    ensures r == s
  {
    Distribute(q, p, d);
    if q > p {
      AtLeast(q - p, d);
    } else if q < p {
      Distribute(p, q, d);
      AtLeast(p - q, d);
    }
  }

  lemma Distribute(q: int, p: int, d: int)
    ensures (q - p) * d == q * d - p * d
  {
  }

  lemma AtLeast(k: int, d: int)
    requires k >= 1 && d > 0
    ensures k * d >= d
  {
  }

  /** Some block has exactly one byte if and only if blocks have one byte or the last one has. */
  lemma {:induction false} SomeTileHasOneByteIff(fileSize: int, blockBytes: int)
    requires blockBytes > 0 && fileSize > 0
    ensures (exists t :: t in Tiles(fileSize, blockBytes, 0) && t.size == 1)
            <==> blockBytes == 1 || fileSize % blockBytes == 1
  {
    TileSizes(fileSize, blockBytes, 0);
    if blockBytes == 1 {
      assert fileSize >= blockBytes;
    }
  }

  /** The loop ends if and only if blocks have a positive size or there is nothing to cut. */
  lemma TilingEndsIff(fileSize: int, blockBytes: int)
    ensures (exists n: nat :: OffsetAfter(fileSize, blockBytes, n) >= fileSize) <==> blockBytes > 0 || fileSize <= 0
  {
    if fileSize <= 0 {
      assert OffsetAfter(fileSize, blockBytes, 0) >= fileSize;
    } else if blockBytes > 0 {
      OffsetAdvances(fileSize, blockBytes, fileSize);
    } else {
      forall n: nat ensures OffsetAfter(fileSize, blockBytes, n) < fileSize {
        OffsetStuck(fileSize, blockBytes, n);
      }
    }
  }

  lemma {:induction false} OffsetAdvances(fileSize: int, blockBytes: int, n: nat)
    requires blockBytes > 0
    ensures OffsetAfter(fileSize, blockBytes, n) >= fileSize || OffsetAfter(fileSize, blockBytes, n) >= n
  {
    if n > 0 {
      OffsetAdvances(fileSize, blockBytes, n - 1);
    }
  }

  lemma {:induction false} OffsetStuck(fileSize: int, blockBytes: int, n: nat)
    requires blockBytes <= 0 < fileSize
    ensures OffsetAfter(fileSize, blockBytes, n) <= 0
  {
    if n > 0 {
      OffsetStuck(fileSize, blockBytes, n - 1);
    }
  }
}
