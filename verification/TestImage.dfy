/** The synthetic image generator with its flat byte buffer, filled in place. */
module TestImages {
  import opened Bytes
  import opened ImageBlocks

  datatype Outcome = Success | InvalidParam | FileSystem

  // ---------- blocks of a flat buffer ----------

  lemma {:induction false} Products(a: nat, b: nat, c: nat)
    ensures a <= b ==> a * c <= b * c
    ensures (a + 1) * c == a * c + c
  {
  }

  function BlockAt(data: seq<Byte>, blockSize: nat, b: nat): seq<Byte>
    requires b * blockSize + blockSize <= |data|
  {
    data[b * blockSize..b * blockSize + blockSize]
  }

  lemma {:induction false} BlockInData(total: nat, blockSize: nat, b: nat)
    requires b < total
    ensures b * blockSize + blockSize <= total * blockSize
  {
    Products(b + 1, total, blockSize);
    Products(b, b, blockSize);
  }

  lemma {:induction false} AllBlocksInData(total: nat, blockSize: nat)
    ensures forall b :: 0 <= b < total ==> b * blockSize + blockSize <= total * blockSize
  {
    forall b | 0 <= b < total
      ensures b * blockSize + blockSize <= total * blockSize
    {
      BlockInData(total, blockSize, b);
    }
  }

  ghost function View(data: seq<Byte>, blockSize: nat, total: nat): (v: seq<seq<Byte>>)
    requires |data| == total * blockSize
    ensures |v| == total && Uniform(v, blockSize)
  {
    AllBlocksInData(total, blockSize);
    seq(total, b requires 0 <= b < total && b * blockSize + blockSize <= |data| => BlockAt(data, blockSize, b))
  }

  lemma {:induction false} ViewBlock(data: seq<Byte>, blockSize: nat, total: nat, c: nat, lo: nat)
    requires |data| == total * blockSize && c < total && lo == c * blockSize
    ensures lo + blockSize <= |data|
    ensures View(data, blockSize, total)[c] == data[lo..lo + blockSize]
  {
    BlockInData(total, blockSize, c);
  }

  /** Copying a chunk to the front of a block changes that block of the view and no other. */
  lemma {:induction false} CopyIsOverwrite(before: seq<Byte>, after: seq<Byte>, blockSize: nat, total: nat, b: nat,
        chunk: seq<Byte>)
    requires |before| == |after| == total * blockSize && b < total && |chunk| <= blockSize
    requires forall p :: 0 <= p < |after| ==>
      after[p] == if b * blockSize <= p < b * blockSize + |chunk| then chunk[p - b * blockSize] else before[p]
    ensures View(after, blockSize, total)
        == View(before, blockSize, total)[b := Overwrite(View(before, blockSize, total)[b], chunk)]
  {
    hide Overwrite, View;
    ViewLength(before, blockSize, total);
    ViewLength(after, blockSize, total);
    var at := b * blockSize;
    forall c | 0 <= c < total
      ensures View(after, blockSize, total)[c]
           == if c == b then Overwrite(View(before, blockSize, total)[b], chunk) else View(before, blockSize, total)[c]
    {
      CopiedBlock(before, after, blockSize, total, b, c, at, chunk);
    }
  }

  lemma {:induction false} ViewLength(data: seq<Byte>, blockSize: nat, total: nat)
    requires |data| == total * blockSize
    ensures |View(data, blockSize, total)| == total
    ensures forall b :: 0 <= b < total ==> |View(data, blockSize, total)[b]| == blockSize
  {
  }

  lemma {:induction false} CopiedBlock(before: seq<Byte>, after: seq<Byte>, blockSize: nat, total: nat, b: nat, c: nat,
        at: nat, chunk: seq<Byte>)
    requires |before| == |after| == total * blockSize && b < total && c < total && |chunk| <= blockSize
    requires at == b * blockSize
    requires forall p :: 0 <= p < |after| ==> after[p] == if at <= p < at + |chunk| then chunk[p - at] else before[p]
    ensures View(after, blockSize, total)[c]
         == if c == b then Overwrite(View(before, blockSize, total)[b], chunk) else View(before, blockSize, total)[c]
  {
    hide *;
    var lo := Positions(before, after, blockSize, total, b, c, at);
    BlockAfterCopy(before, after, at, lo, blockSize, chunk, c == b);
  }

  /** Where the blocks `b` and `c` are: at the same place or apart. */
  lemma {:induction false} Positions(before: seq<Byte>, after: seq<Byte>, blockSize: nat, total: nat, b: nat, c: nat,
        at: nat) returns (lo: nat)
    requires |before| == |after| == total * blockSize && b < total && c < total && at == b * blockSize
    ensures at + blockSize <= |after| && lo + blockSize <= |after|
    ensures if c == b then lo == at else lo + blockSize <= at || at + blockSize <= lo
    ensures View(before, blockSize, total)[c] == before[lo..lo + blockSize]
    ensures View(after, blockSize, total)[c] == after[lo..lo + blockSize]
  {
    hide *;
    lo := c * blockSize;
    Spans(total, blockSize, b, c, at, lo);
    ViewBlock(before, blockSize, total, c, lo);
    ViewBlock(after, blockSize, total, c, lo);
  }

  lemma {:induction false} Spans(total: nat, blockSize: nat, b: nat, c: nat, at: nat, lo: nat)
    requires b < total && c < total && at == b * blockSize && lo == c * blockSize
    ensures at + blockSize <= total * blockSize && lo + blockSize <= total * blockSize
    ensures if c == b then lo == at else lo + blockSize <= at || at + blockSize <= lo
  {
    if c < b {
      Products(c + 1, b, blockSize);
      Products(c, c, blockSize);
    } else if b < c {
      Products(b + 1, c, blockSize);
      Products(b, b, blockSize);
    }
    BlockInData(total, blockSize, b);
    BlockInData(total, blockSize, c);
  }

  /** The `n` bytes at `lo`, which are those at `at` or apart from them, after the copy to `at`. */
  lemma {:induction false} BlockAfterCopy(before: seq<Byte>, after: seq<Byte>, at: nat, lo: nat, n: nat,
        chunk: seq<Byte>, same: bool)
    requires |before| == |after| && lo + n <= |after| && at + n <= |after| && |chunk| <= n
    requires if same then lo == at else lo + n <= at || at + n <= lo
    requires forall p :: 0 <= p < |after| ==> after[p] == if at <= p < at + |chunk| then chunk[p - at] else before[p]
    ensures after[lo..lo + n] == if same then Overwrite(before[lo..lo + n], chunk) else before[lo..lo + n]
  {
  }

  /** The first blocks of a buffer that begins with zeros. */
  lemma {:induction false} ZeroBlocks(data: seq<Byte>, blockSize: nat, zeros: nat, total: nat)
    requires |data| == total * blockSize && zeros <= total
    requires forall p :: 0 <= p < zeros * blockSize && p < |data| ==> data[p] == 0
    ensures forall b :: 0 <= b < zeros ==> View(data, blockSize, total)[b] == Zeros(blockSize)
  {
    hide View;
    forall b | 0 <= b < zeros
      ensures View(data, blockSize, total)[b] == Zeros(blockSize)
    {
      BlockInData(zeros, blockSize, b);
      ViewBlock(data, blockSize, total, b, b * blockSize);
    }
  }

  /** How far behind the image a gap file can reach. */
  const BEHIND: nat := 2

  /** The image, and as much of the memory behind its buffer as the gap of a file can reach: the code's room
      check leaves the gap out, so the blocks of a file may lie there. */
  class ImageBuilder {
    const blockSize: nat
    const totalBlocks: nat
    var data: array<Byte>
    var nextFreeBlock: nat
    var records: seq<Placement>
    ghost const extent: nat
    ghost const base: seq<seq<Byte>>
    ghost var files: seq<seq<Byte>>

    ghost predicate Valid()
      reads this, data
    {
      && extent == totalBlocks + BEHIND == |base|
      && (forall b :: 0 <= b < totalBlocks ==> base[b] == Zeros(blockSize))
      && data.Length == extent * blockSize
      && Inv(Blocks(), base, records, files, blockSize, nextFreeBlock)
    }

    ghost function Blocks(): (v: seq<seq<Byte>>)
      requires data.Length == extent * blockSize
      reads this, data
      ensures |v| == extent && Uniform(v, blockSize)
    {
      View(data[..], blockSize, extent)
    }

    constructor (blockSize: nat, totalBlocks: nat, behind: seq<Byte>)
      requires blockSize > 0 && totalBlocks > 0 && |behind| == BEHIND * blockSize
      ensures Valid() && fresh(data) && records == [] && files == [] && nextFreeBlock == 0
      ensures this.blockSize == blockSize && this.totalBlocks == totalBlocks
      ensures data[totalBlocks * blockSize..] == behind
    {
      var size := totalBlocks * blockSize;
      assert (totalBlocks + BEHIND) * blockSize == size + BEHIND * blockSize;
      this.blockSize, this.totalBlocks := blockSize, totalBlocks;
      nextFreeBlock, records, files := 0, [], [];
      extent := totalBlocks + BEHIND;
      var memory := new Byte[size + BEHIND * blockSize](i requires 0 <= i < size + |behind| =>
        if i < size then 0 else behind[i - size]);
      data := memory;
      base := View(memory[..], blockSize, totalBlocks + BEHIND);
      new;
      hide View;
      ZeroBlocks(data[..], blockSize, totalBlocks, extent);
    }

    /** `test_image_gen_init`: an image without blocks or with empty ones is refused. */
    static method Create(blockSize: nat, totalBlocks: nat, behind: seq<Byte>) returns (builder: ImageBuilder?)
      requires |behind| == BEHIND * blockSize
      ensures builder == null <==> blockSize == 0 || totalBlocks == 0
      ensures builder != null ==> fresh(builder) && builder.Valid() && fresh(builder.data)
      ensures builder != null ==> builder.records == [] && builder.files == [] && builder.nextFreeBlock == 0
      ensures builder != null ==> builder.blockSize == blockSize && builder.totalBlocks == totalBlocks
      ensures builder != null ==> builder.data[totalBlocks * blockSize..] == behind
    {
      if blockSize == 0 || totalBlocks == 0 {
        return null;
      }
      builder := new ImageBuilder(blockSize, totalBlocks, behind);
    }

    /** Place a file. No block changes but its own, and these all lie in the image if and only if its gap fits
        there as well. */
    method Embed(file: seq<Byte>, pattern: Pattern) returns (outcome: Outcome)
      requires Valid()
      modifies this, data
      ensures Valid() && data == old(data)
      ensures outcome == if file == [] then InvalidParam
                         else if old(nextFreeBlock) + BlocksNeeded(|file|, blockSize) > totalBlocks then FileSystem
                         else Success
      ensures outcome == Success ==>
        && records == old(records) + [NewPlacement(file, blockSize, old(nextFreeBlock), pattern)]
        && files == old(files) + [file]
        && nextFreeBlock == old(nextFreeBlock) + BlocksNeeded(|file|, blockSize) + GapOf(pattern)
        && (InImage(records[|records| - 1], totalBlocks) <==> nextFreeBlock <= totalBlocks)
        && (forall b :: 0 <= b < extent && b !in records[|records| - 1].blocks ==> Blocks()[b] == old(Blocks())[b])
      ensures outcome != Success ==>
        records == old(records) && files == old(files) && nextFreeBlock == old(nextFreeBlock)
            && data[..] == old(data[..])
    {
      hide NewPlacement, InImage, Inv, GapOf, BlocksNeeded;
      if file == [] {
        return InvalidParam;
      }
      var needed := PartsOf(file);
      if nextFreeBlock + needed > totalBlocks {
        return FileSystem;
      }
      PlacementInImage(file, blockSize, nextFreeBlock, pattern, totalBlocks);
      GapIsSmall(pattern);
      Record(file, needed, pattern);
      return Success;
    }

    method PartsOf(file: seq<Byte>) returns (needed: nat)
      requires Valid()
      ensures blockSize > 0 && needed == BlocksNeeded(|file|, blockSize)
    {
      needed := (|file| + blockSize - 1) / blockSize;
    }

    /** The copying, and the new ground-truth record. */
    method Record(file: seq<Byte>, needed: nat, pattern: Pattern)
      requires Valid() && file != [] && needed == BlocksNeeded(|file|, blockSize)
      requires nextFreeBlock + needed + GapOf(pattern) <= extent
      modifies this, data
      ensures Valid() && data == old(data)
      ensures records == old(records) + [NewPlacement(file, blockSize, old(nextFreeBlock), pattern)]
      ensures files == old(files) + [file]
      ensures nextFreeBlock == old(nextFreeBlock) + needed + GapOf(pattern)
      ensures forall b :: 0 <= b < extent && b !in records[|records| - 1].blocks ==> Blocks()[b] == old(Blocks())[b]
    {
      hide IsBase, Uniform, Holds, Before, Used, Chunks, Placed, View, BlocksNeeded;
      ChunksCount(file, blockSize);
      EmbedKeepsInv(Blocks(), base, records, files, blockSize, nextFreeBlock, file, pattern);
      var start := nextFreeBlock;
      OthersStay(Blocks(), file, blockSize, start, pattern);
      var blocks := CopyFile(file, needed, pattern);
      records := records + [Placement(start, blocks, |file|, pattern)];
      files := files + [file];
    }

    /** The placement loop. */
    method CopyFile(file: seq<Byte>, needed: nat, pattern: Pattern) returns (blocks: seq<nat>)
      requires data.Length == extent * blockSize && blockSize > 0 && file != []
      requires needed == |Chunks(file, blockSize)| && nextFreeBlock + needed + GapOf(pattern) <= extent
      modifies this`nextFreeBlock, data
      ensures data.Length == extent * blockSize
      ensures blocks == BlocksFor(old(nextFreeBlock), needed, pattern)
      ensures nextFreeBlock == old(nextFreeBlock) + needed + GapOf(pattern)
      ensures forall i :: 0 <= i < needed ==> blocks[i] < extent && |Chunks(file, blockSize)[i]| <= blockSize
      ensures Blocks() == Placed(old(Blocks()), blocks, Chunks(file, blockSize), blockSize, needed)
    {
      ghost var c, next := Chunks(file, blockSize), nextFreeBlock;
      ghost var all := BlocksFor(next, needed, pattern);
      BlocksInImageIffGapFits(next, needed, pattern, extent);
      blocks := CopyParts(file, needed, pattern, next, all, c);
    }

    method CopyParts(file: seq<Byte>, needed: nat, pattern: Pattern, ghost next: nat, ghost all: seq<nat>,
          ghost c: seq<seq<Byte>>)
      returns (blocks: seq<nat>)
      requires data.Length == extent * blockSize && blockSize > 0 && nextFreeBlock == next
      requires c == Chunks(file, blockSize) && |c| == |all| == needed > 0
      requires forall i :: 0 <= i < needed ==>
                 all[i] == BlockFor(next, needed, pattern, i) && all[i] < extent && |c[i]| <= blockSize
      modifies this`nextFreeBlock, data
      ensures data.Length == extent * blockSize
      ensures blocks == all && nextFreeBlock == next + needed + GapOf(pattern)
      ensures Blocks() == Placed(old(Blocks()), all, c, blockSize, needed)
    {
      hide Chunks, Placed, View, Overwrite, BlockFor, TailLength, Reached, GapOf;
      ghost var view := Blocks();
      PlacedNone(view, all, c, blockSize);
      ReachedEnds(next, needed, pattern);
      var tail := TailLength(|file|, blockSize);
      var rest := file;
      blocks := [];
      for i := 0 to needed
        invariant |blocks| == i && forall k :: 0 <= k < i ==> blocks[k] == all[k]
        invariant nextFreeBlock == Reached(next, needed, pattern, i)
        invariant Chunks(rest, blockSize) == c[i..]
        invariant i < needed ==> TailLength(|rest|, blockSize) == tail
        invariant data.Length == extent * blockSize
        invariant Blocks() == Placed(view, all, c, blockSize, i)
      {
        PlacedNext(view, all, c, blockSize, i);
        var b;
        b, rest := CopyPart(rest, i, needed, pattern, tail, next, c);
        blocks := blocks + [b];
      }
    }

    /** One turn of the loop. */
    method CopyPart(rest: seq<Byte>, i: nat, needed: nat, pattern: Pattern, tail: nat, ghost next: nat,
          ghost c: seq<seq<Byte>>)
      returns (b: nat, rest': seq<Byte>)
      requires data.Length == extent * blockSize && blockSize > 0 && i < needed == |c|
      requires nextFreeBlock == Reached(next, needed, pattern, i)
      requires BlockFor(next, needed, pattern, i) < extent && |c[i]| <= blockSize
      requires Chunks(rest, blockSize) == c[i..] && TailLength(|rest|, blockSize) == tail
      modifies this`nextFreeBlock, data
      ensures b == BlockFor(next, needed, pattern, i)
      ensures nextFreeBlock == Reached(next, needed, pattern, i + 1)
      ensures Chunks(rest', blockSize) == c[i + 1..]
      ensures i + 1 < needed ==> TailLength(|rest'|, blockSize) == tail
      ensures Blocks() == old(Blocks())[b := Overwrite(old(Blocks())[b], c[i])]
    {
      hide Chunks, View, Overwrite, BlockFor, TailLength, Reached;
      b := TakeBlock(i, needed, pattern, next);
      var copyLength := if i == needed - 1 && tail != 0 then tail else blockSize;
      NextChunk(rest, c, blockSize, i, tail);
      CopyChunk(b, rest[..copyLength]);
      rest' := rest[copyLength..];
    }

    /** The next free block for part `i`, after the gap if the part starts the second half. */
    method TakeBlock(i: nat, needed: nat, pattern: Pattern, ghost next: nat) returns (b: nat)
      requires nextFreeBlock == Reached(next, needed, pattern, i)
      modifies this`nextFreeBlock
      ensures b == BlockFor(next, needed, pattern, i)
      ensures nextFreeBlock == Reached(next, needed, pattern, i + 1)
    {
      if pattern == Gap && i == needed / 2 {
        nextFreeBlock := nextFreeBlock + 2;
      }
      b := nextFreeBlock;
      nextFreeBlock := nextFreeBlock + 1;
    }

    method CopyChunk(b: nat, chunk: seq<Byte>)
      requires data.Length == extent * blockSize && b < extent && |chunk| <= blockSize
      modifies data
      ensures Blocks() == old(Blocks())[b := Overwrite(old(Blocks())[b], chunk)]
    {
      ghost var before := data[..];
      BlockInData(extent, blockSize, b);
      var base := b * blockSize;
      forall i | 0 <= i < |chunk| {
        data[base + i] := chunk[i];
      }
      CopyIsOverwrite(before, data[..], blockSize, extent, b, chunk);
    }
  }

  /** The next free block before part `i`. */
  ghost function Reached(next: nat, needed: nat, pattern: Pattern, i: nat): nat {
    next + i + (if i > needed / 2 then GapOf(pattern) else 0)
  }

  lemma {:induction false} ReachedEnds(next: nat, needed: nat, pattern: Pattern)
    requires needed > 0
    ensures Reached(next, needed, pattern, 0) == next
    ensures Reached(next, needed, pattern, needed) == next + needed + GapOf(pattern)
  {
  }

  /** `data_len % block_size`. */
  function TailLength(size: nat, blockSize: nat): nat
    requires blockSize > 0
  {
    size % blockSize
  }

  /** The length that the loop copies next is the length of the next chunk. */
  lemma {:induction false} NextChunk(rest: seq<Byte>, c: seq<seq<Byte>>, blockSize: nat, i: nat, tail: nat)
    requires blockSize > 0 && i < |c| && Chunks(rest, blockSize) == c[i..] && TailLength(|rest|, blockSize) == tail
    ensures var n := if i == |c| - 1 && tail != 0 then tail else blockSize;
      && n <= |rest| && n == |c[i]| && rest[..n] == c[i] && Chunks(rest[n..], blockSize) == c[i + 1..]
      && (i + 1 < |c| ==> TailLength(|rest[n..]|, blockSize) == tail)
  {
    var d := Chunks(rest, blockSize);
    assert d[0] == c[i] && d[1..] == c[i + 1..];
    if |rest| <= blockSize {
      LastChunk(rest, blockSize);
    } else {
      LaterChunk(rest, blockSize);
    }
  }

  lemma {:induction false} LastChunk(rest: seq<Byte>, blockSize: nat)
    requires 0 < |rest| <= blockSize
    ensures |rest| == if |rest| % blockSize != 0 then |rest| % blockSize else blockSize
    ensures Chunks(rest, blockSize) == [rest] && Chunks(rest[|rest|..], blockSize) == [] && rest[..|rest|] == rest
  {
    if |rest| < blockSize {
      QuotientIs(|rest|, blockSize, 0, |rest|);
    } else {
      QuotientIs(|rest|, blockSize, 1, 0);
    }
  }

  lemma {:induction false} LaterChunk(rest: seq<Byte>, blockSize: nat)
    requires 0 < blockSize < |rest|
    ensures Chunks(rest, blockSize) == [rest[..blockSize]] + Chunks(rest[blockSize..], blockSize)
    ensures |Chunks(rest, blockSize)| > 1
    ensures |rest[blockSize..]| % blockSize == |rest| % blockSize
  {
    DivStep(|rest| - blockSize, blockSize);
  }
}
