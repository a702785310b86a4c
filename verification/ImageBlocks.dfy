/**
 Synthetic evidence images: which blocks a file gets, what ends up in them, and why every embedded file
 can be read back however many files follow. The image is seen as a sequence of blocks; `ImageBuilder`
 keeps it as the flat byte buffer of the program.
 */
module ImageBlocks {
  import opened Bytes

  /** The placement patterns; the code treats the last three like the first. */
  datatype Pattern = Contiguous | Gap | OutOfOrder | Interleaved | DuplicateBlocks

  /** A ground-truth record: where the file is. */
  datatype Placement = Placement(startBlock: nat, blocks: seq<nat>, size: nat, pattern: Pattern)

  // ---------- cutting a file into blocks ----------

  function Zeros(n: nat): (z: seq<Byte>)
    ensures |z| == n && forall i :: 0 <= i < n ==> z[i] == 0
  {
    seq(n, _ => 0)
  }

  /** The file in blocks, the last one short when need be. */
  function Chunks(file: seq<Byte>, blockSize: nat): (c: seq<seq<Byte>>)
    requires blockSize > 0
    ensures forall i :: 0 <= i < |c| ==> 0 < |c[i]| <= blockSize
    ensures forall i :: 0 <= i < |c| - 1 ==> |c[i]| == blockSize
    decreases |file|
  {
    if file == [] then [] else if |file| <= blockSize then [file]
    else [file[..blockSize]] + Chunks(file[blockSize..], blockSize)
  }

  function Concat(c: seq<seq<Byte>>): seq<Byte> {
    if c == [] then [] else c[0] + Concat(c[1..])
  }

  /** `(len + bs - 1) / bs`. */
  function BlocksNeeded(size: nat, blockSize: nat): nat
    requires blockSize > 0
  {
    (size + blockSize - 1) / blockSize
  }

  lemma {:induction false} DivStep(x: nat, d: nat)
    requires d > 0
    ensures (x + d) / d == x / d + 1 && (x + d) % d == x % d
  {
    var q, r := x / d, x % d;
    assert x + d == (q + 1) * d + r;
    QuotientIs(x + d, d, q + 1, r);
  }

  lemma {:induction false} QuotientIs(x: nat, d: nat, q: nat, r: nat)
    requires r < d && x == q * d + r
    ensures x / d == q && x % d == r
  {
    var q', r' := x / d, x % d;
    assert x == q' * d + r';
    assert (q - q') * d == r' - r;
    assert q - q' >= 1 ==> (q - q') * d >= d;
    assert q' - q >= 1 ==> (q' - q) * d >= d;
  }

  lemma {:induction false} ChunksCount(file: seq<Byte>, blockSize: nat)
    requires blockSize > 0
    ensures |Chunks(file, blockSize)| == BlocksNeeded(|file|, blockSize)
    decreases |file|
  {
    if file == [] {
      QuotientIs(blockSize - 1, blockSize, 0, blockSize - 1);
    } else if |file| <= blockSize {
      QuotientIs(|file| + blockSize - 1, blockSize, 1, |file| - 1);
    } else {
      ChunksCount(file[blockSize..], blockSize);
      DivStep(|file| - blockSize + blockSize - 1, blockSize);
    }
  }

  lemma {:induction false} ChunksConcat(file: seq<Byte>, blockSize: nat)
    requires blockSize > 0
    ensures Concat(Chunks(file, blockSize)) == file
    decreases |file|
  {
    if file == [] {
    } else if |file| <= blockSize {
      assert Concat([file]) == file + Concat([]);
    } else {
      ChunksConcat(file[blockSize..], blockSize);
      assert file == file[..blockSize] + file[blockSize..];
    }
  }

  // ---------- choosing blocks ----------

  function GapOf(pattern: Pattern): nat {
    if pattern.Gap? then 2 else 0
  }

  /** The block of part `i`: a gap pattern skips two blocks before the second half. */
  function BlockFor(next: nat, needed: nat, pattern: Pattern, i: nat): nat {
    next + i + (if i >= needed / 2 then GapOf(pattern) else 0)
  }

  function BlocksFor(next: nat, needed: nat, pattern: Pattern): (b: seq<nat>)
    ensures |b| == needed
    ensures forall i :: 0 <= i < needed ==> b[i] == BlockFor(next, needed, pattern, i)
  {
    seq(needed, i requires 0 <= i < needed => BlockFor(next, needed, pattern, i))
  }

  ghost predicate StrictlyIncreasing(b: seq<nat>) {
    forall i, j :: 0 <= i < j < |b| ==> b[i] < b[j]
  }

  /** The blocks of a file are increasing, at or after `next`, and stay in the image if and only if the
      gap fits too, which the code's own room check leaves out. */
  lemma {:induction false} BlocksInImageIffGapFits(next: nat, needed: nat, pattern: Pattern, total: nat)
    requires needed > 0
    ensures StrictlyIncreasing(BlocksFor(next, needed, pattern))
    ensures forall i :: 0 <= i < needed ==> next <= BlocksFor(next, needed, pattern)[i] < next + needed + GapOf(pattern)
    ensures (forall i :: 0 <= i < needed ==> BlocksFor(next, needed, pattern)[i] < total)
       <==> next + needed + GapOf(pattern) <= total
  {
    assert BlocksFor(next, needed, pattern)[needed - 1] == next + needed - 1 + GapOf(pattern);
  }

  /** Part after part the blocks follow one another, but for two blocks left out before the second half of a gap
      file; the first is the next free one. */
  lemma {:induction false} BlocksFollow(next: nat, needed: nat, pattern: Pattern, i: nat)
    requires i < needed
    ensures var b := BlocksFor(next, needed, pattern);
      && (i > 0 ==> b[i] - b[i - 1] == if pattern == Gap && i == needed / 2 then 3 else 1)
      && (i == 0 ==> b[i] == if pattern == Gap && needed == 1 then next + 2 else next)
  {
    assert BlocksFor(next, needed, pattern)[i] == BlockFor(next, needed, pattern, i);
    if i > 0 {
      assert BlocksFor(next, needed, pattern)[i - 1] == BlockFor(next, needed, pattern, i - 1);
    }
  }


  // ---------- an image of blocks ----------

  /** The bytes of a block after `chunk` is copied to its front. */
  function Overwrite(block: seq<Byte>, chunk: seq<Byte>): (r: seq<Byte>)
    requires |chunk| <= |block|
    ensures |r| == |block|
  {
    chunk + block[|chunk|..]
  }

  ghost predicate Uniform(view: seq<seq<Byte>>, blockSize: nat) {
    forall b :: 0 <= b < |view| ==> |view[b]| == blockSize
  }

  /** The image after the first `k` chunks are in their blocks. */
  ghost function Placed(view: seq<seq<Byte>>, blocks: seq<nat>, chunks: seq<seq<Byte>>, blockSize: nat,
        k: nat): (r: seq<seq<Byte>>)
    requires Uniform(view, blockSize) && k <= |blocks| == |chunks|
    requires forall i :: 0 <= i < |chunks| ==> |chunks[i]| <= blockSize && blocks[i] < |view|
    ensures Uniform(r, blockSize) && |r| == |view|
  {
    if k == 0 then view
    else
      var v := Placed(view, blocks, chunks, blockSize, k - 1);
      v[blocks[k - 1] := Overwrite(v[blocks[k - 1]], chunks[k - 1])]
  }

  lemma {:induction false} PlacedAt(view: seq<seq<Byte>>, blocks: seq<nat>, chunks: seq<seq<Byte>>, blockSize: nat,
        k: nat, b: nat)
    requires Uniform(view, blockSize) && k <= |blocks| == |chunks| && StrictlyIncreasing(blocks) && b < |view|
    requires forall i :: 0 <= i < |chunks| ==> |chunks[i]| <= blockSize && blocks[i] < |view|
    ensures var v := Placed(view, blocks, chunks, blockSize, k);
      && (forall i :: 0 <= i < k && blocks[i] == b ==> v[b] == Overwrite(view[b], chunks[i]))
      && ((forall i :: 0 <= i < k ==> blocks[i] != b) ==> v[b] == view[b])
  {
    if k > 0 {
      PlacedAt(view, blocks, chunks, blockSize, k - 1, b);
    }
  }

  lemma {:induction false} PlacedNone(view: seq<seq<Byte>>, blocks: seq<nat>, chunks: seq<seq<Byte>>, blockSize: nat)
    requires Uniform(view, blockSize) && |blocks| == |chunks|
    requires forall i :: 0 <= i < |chunks| ==> |chunks[i]| <= blockSize && blocks[i] < |view|
    ensures Placed(view, blocks, chunks, blockSize, 0) == view
  {
  }

  lemma {:induction false} PlacedNext(view: seq<seq<Byte>>, blocks: seq<nat>, chunks: seq<seq<Byte>>, blockSize: nat,
        k: nat)
    requires Uniform(view, blockSize) && k < |blocks| == |chunks|
    requires forall i :: 0 <= i < |chunks| ==> |chunks[i]| <= blockSize && blocks[i] < |view|
    ensures var v := Placed(view, blocks, chunks, blockSize, k);
      Placed(view, blocks, chunks, blockSize, k + 1) == v[blocks[k] := Overwrite(v[blocks[k]], chunks[k])]
  {
  }

  // ---------- the invariant of the builder ----------

  /** What was in the blocks before the first file: zeros in an image, anything in other memory. */
  ghost predicate IsBase(base: seq<seq<Byte>>, view: seq<seq<Byte>>, blockSize: nat) {
    Uniform(view, blockSize) && Uniform(base, blockSize) && |base| == |view|
  }

  /** Record `r` holds `file` in its blocks, with what was there before behind its last part, all below `next`. */
  ghost predicate Holds(view: seq<seq<Byte>>, base: seq<seq<Byte>>, r: Placement, file: seq<Byte>, blockSize: nat,
        next: nat)
    requires blockSize > 0 && IsBase(base, view, blockSize)
  {
    var c := Chunks(file, blockSize);
    && r.size == |file| && |r.blocks| == |c| && StrictlyIncreasing(r.blocks)
    && forall i :: 0 <= i < |c| ==>
         r.blocks[i] < next && r.blocks[i] < |view| && view[r.blocks[i]] == Overwrite(base[r.blocks[i]], c[i])
  }

  /** The blocks of one record all come before those of another. */
  ghost predicate Before(r: Placement, s: Placement) {
    forall i, j :: 0 <= i < |r.blocks| && 0 <= j < |s.blocks| ==> r.blocks[i] < s.blocks[j]
  }

  ghost predicate Used(records: seq<Placement>, b: nat) {
    exists r, i :: 0 <= r < |records| && 0 <= i < |records[r].blocks| && records[r].blocks[i] == b
  }

  ghost predicate Inv(view: seq<seq<Byte>>, base: seq<seq<Byte>>, records: seq<Placement>, files: seq<seq<Byte>>,
        blockSize: nat, next: nat) {
    && blockSize > 0 && IsBase(base, view, blockSize) && |records| == |files| && next <= |view|
    && (forall r :: 0 <= r < |records| ==> Holds(view, base, records[r], files[r], blockSize, next))
    && (forall r, s :: 0 <= r < s < |records| ==> Before(records[r], records[s]))
    && (forall b :: 0 <= b < |view| && !Used(records, b) ==> view[b] == base[b])
  }

  /** What a record reads back: its blocks one after the other, cut to the file's size. */
  ghost function ReadBack(view: seq<seq<Byte>>, r: Placement): seq<Byte>
    requires forall i :: 0 <= i < |r.blocks| ==> r.blocks[i] < |view|
  {
    var whole := Concat(seq(|r.blocks|, i requires 0 <= i < |r.blocks| => view[r.blocks[i]]));
    if r.size <= |whole| then whole[..r.size] else whole
  }

  /** What stands behind the last part of a file does not disturb what comes before it. */
  lemma {:induction false} PaddedConcat(c: seq<seq<Byte>>, p: seq<seq<Byte>>, blockSize: nat)
    requires |p| == |c| && forall i :: 0 <= i < |c| ==> |c[i]| <= blockSize == |p[i]| && c[i] <= p[i]
    requires forall i :: 0 <= i < |c| - 1 ==> |c[i]| == blockSize
    ensures Concat(c) <= Concat(p)
  {
    if |c| == 1 {
      assert c[1..] == [] && p[1..] == [];
      assert Concat(c) == c[0] + [] == c[0] && Concat(p) == p[0] + [] == p[0];
    } else if |c| > 1 {
      PaddedConcat(c[1..], p[1..], blockSize);
      assert p[0] == c[0];
    }
  }

  /** Every embedded file reads back, and no two records share a block. */
  lemma {:induction false} EveryFileReadsBack(view: seq<seq<Byte>>, base: seq<seq<Byte>>, records: seq<Placement>,
        files: seq<seq<Byte>>, blockSize: nat, next: nat)
    requires Inv(view, base, records, files, blockSize, next)
    ensures forall r :: 0 <= r < |records| ==>
      (forall i :: 0 <= i < |records[r].blocks| ==> records[r].blocks[i] < |view|)
          && ReadBack(view, records[r]) == files[r]
    ensures forall r, s, i, j ::
              0 <= r < s < |records| && 0 <= i < |records[r].blocks| && 0 <= j < |records[s].blocks| ==>
              records[r].blocks[i] < records[s].blocks[j]
  {
    forall r | 0 <= r < |records|
      ensures (forall i :: 0 <= i < |records[r].blocks| ==> records[r].blocks[i] < |view|)
          && ReadBack(view, records[r]) == files[r]
    {
      RecordReadsBack(view, base, records[r], files[r], blockSize, next);
    }
    forall r, s, i, j | 0 <= r < s < |records| && 0 <= i < |records[r].blocks| && 0 <= j < |records[s].blocks|
      ensures records[r].blocks[i] < records[s].blocks[j]
    {
      assert Before(records[r], records[s]);
    }
  }

  lemma {:induction false} RecordReadsBack(view: seq<seq<Byte>>, base: seq<seq<Byte>>, r: Placement, file: seq<Byte>,
        blockSize: nat, next: nat)
    requires blockSize > 0 && IsBase(base, view, blockSize) && Holds(view, base, r, file, blockSize, next)
    ensures forall i :: 0 <= i < |r.blocks| ==> r.blocks[i] < |view|
    ensures ReadBack(view, r) == file
  {
    var c := Chunks(file, blockSize);
    var p := seq(|r.blocks|, i requires 0 <= i < |r.blocks| => view[r.blocks[i]]);
    ChunksConcat(file, blockSize);
    forall i | 0 <= i < |c| ensures |p[i]| == blockSize && c[i] <= p[i] {
      assert p[i] == Overwrite(base[r.blocks[i]], c[i]);
    }
    PaddedConcat(c, p, blockSize);
  }

  // ---------- embedding keeps the invariant ----------

  /** The placement that the code computes for a file. */
  function NewPlacement(file: seq<Byte>, blockSize: nat, next: nat, pattern: Pattern): Placement
    requires blockSize > 0
  {
    Placement(next, BlocksFor(next, |Chunks(file, blockSize)|, pattern), |file|, pattern)
  }

  /** A part of a file in a block that was zero is padded with zeros. */
  lemma {:induction false} PaddedWithZeros(view: seq<seq<Byte>>, base: seq<seq<Byte>>, records: seq<Placement>,
        files: seq<seq<Byte>>, blockSize: nat, next: nat, r: nat, i: nat)
    requires Inv(view, base, records, files, blockSize, next) && r < |records| && i < |records[r].blocks|
    ensures records[r].blocks[i] < |view| && i < |Chunks(files[r], blockSize)|
    ensures var b, chunk := records[r].blocks[i], Chunks(files[r], blockSize)[i];
      base[b] == Zeros(blockSize) ==> view[b] == chunk + Zeros(blockSize - |chunk|)
  {
    hide Chunks, Used, Before;
    assert Holds(view, base, records[r], files[r], blockSize, next);
  }

  lemma {:induction false} EmbedKeepsInv(view: seq<seq<Byte>>, base: seq<seq<Byte>>, records: seq<Placement>,
        files: seq<seq<Byte>>, blockSize: nat, next: nat, file: seq<Byte>, pattern: Pattern)
    requires Inv(view, base, records, files, blockSize, next) && file != []
    requires next + |Chunks(file, blockSize)| + GapOf(pattern) <= |view|
    ensures var c, r := Chunks(file, blockSize), NewPlacement(file, blockSize, next, pattern);
      && (forall i :: 0 <= i < |c| ==> |c[i]| <= blockSize && r.blocks[i] < |view|)
      && Inv(Placed(view, r.blocks, c, blockSize, |c|), base, records + [r], files + [file], blockSize,
             next + |c| + GapOf(pattern))
  {
    hide Holds, Before, Used, GapOf;
    var c, r := Chunks(file, blockSize), NewPlacement(file, blockSize, next, pattern);
    BlocksInImageIffGapFits(next, |c|, pattern, |view|);
    var v := Placed(view, r.blocks, c, blockSize, |c|);
    var rs, fs, next' := records + [r], files + [file], next + |c| + GapOf(pattern);
    forall k | 0 <= k < |rs|
      ensures Holds(v, base, rs[k], fs[k], blockSize, next')
    {
      if k < |records| {
        OldRecordHolds(view, base, records[k], files[k], blockSize, next, r.blocks, c, next');
      } else {
        NewRecordHolds(view, base, records, files, blockSize, next, file, pattern);
      }
    }
    RecordsStayOrdered(view, base, records, files, blockSize, next, r);
    RestStays(view, base, records, files, blockSize, next, r, c);
  }

  lemma {:induction false} RecordsStayOrdered(view: seq<seq<Byte>>, base: seq<seq<Byte>>, records: seq<Placement>,
        files: seq<seq<Byte>>, blockSize: nat, next: nat, r: Placement)
    requires Inv(view, base, records, files, blockSize, next)
    requires forall i :: 0 <= i < |r.blocks| ==> next <= r.blocks[i]
    ensures forall k, l :: 0 <= k < l < |records + [r]| ==> Before((records + [r])[k], (records + [r])[l])
  {
    var rs := records + [r];
    forall k, l | 0 <= k < l < |rs|
      ensures Before(rs[k], rs[l])
    {
      if l < |records| {
        assert Before(records[k], records[l]);
      } else {
        assert Holds(view, base, records[k], files[k], blockSize, next);
      }
    }
  }

  lemma {:induction false} UsedGrows(records: seq<Placement>, r: Placement, b: nat)
    ensures Used(records + [r], b) <==> Used(records, b) || b in r.blocks
  {
    var rs := records + [r];
    if Used(records, b) {
      var k, i :| 0 <= k < |records| && 0 <= i < |records[k].blocks| && records[k].blocks[i] == b;
      assert rs[k].blocks[i] == b;
    }
    if b in r.blocks {
      var i :| 0 <= i < |r.blocks| && r.blocks[i] == b;
      assert rs[|records|].blocks[i] == b;
    }
  }

  lemma {:induction false} RestStays(view: seq<seq<Byte>>, base: seq<seq<Byte>>, records: seq<Placement>,
        files: seq<seq<Byte>>, blockSize: nat, next: nat, r: Placement, c: seq<seq<Byte>>)
    requires Inv(view, base, records, files, blockSize, next) && |c| == |r.blocks| && StrictlyIncreasing(r.blocks)
    requires forall i :: 0 <= i < |c| ==> |c[i]| <= blockSize && r.blocks[i] < |view|
    ensures forall b :: 0 <= b < |view| && !Used(records + [r], b) ==>
              Placed(view, r.blocks, c, blockSize, |c|)[b] == base[b]
  {
    var rs := records + [r];
    hide Holds, Before;
    forall b | 0 <= b < |view| && !Used(rs, b)
      ensures Placed(view, r.blocks, c, blockSize, |c|)[b] == base[b]
    {
      UsedGrows(records, r, b);
      PlacedAt(view, r.blocks, c, blockSize, |c|, b);
    }
  }

  lemma {:induction false} OldRecordHolds(view: seq<seq<Byte>>, base: seq<seq<Byte>>, r: Placement, file: seq<Byte>,
        blockSize: nat, next: nat, blocks: seq<nat>, chunks: seq<seq<Byte>>, next': nat)
    requires blockSize > 0 && IsBase(base, view, blockSize) && Holds(view, base, r, file, blockSize, next)
    requires next <= next' && |blocks| == |chunks| && StrictlyIncreasing(blocks)
    requires forall i :: 0 <= i < |chunks| ==> |chunks[i]| <= blockSize && next <= blocks[i] < |view|
    ensures Holds(Placed(view, blocks, chunks, blockSize, |chunks|), base, r, file, blockSize, next')
  {
    forall i | 0 <= i < |r.blocks|
      ensures Placed(view, blocks, chunks, blockSize, |chunks|)[r.blocks[i]] == view[r.blocks[i]]
    {
      PlacedAt(view, blocks, chunks, blockSize, |chunks|, r.blocks[i]);
    }
  }

  lemma {:induction false} UnusedFromNext(view: seq<seq<Byte>>, base: seq<seq<Byte>>, records: seq<Placement>,
        files: seq<seq<Byte>>, blockSize: nat, next: nat, b: nat)
    requires Inv(view, base, records, files, blockSize, next) && next <= b < |view|
    ensures view[b] == base[b]
  {
    assert forall r :: 0 <= r < |records| ==> Holds(view, base, records[r], files[r], blockSize, next);
    assert !Used(records, b);
  }

  lemma {:induction false} NewRecordHolds(view: seq<seq<Byte>>, base: seq<seq<Byte>>, records: seq<Placement>,
        files: seq<seq<Byte>>, blockSize: nat, next: nat, file: seq<Byte>, pattern: Pattern)
    requires Inv(view, base, records, files, blockSize, next) && file != []
    requires next + |Chunks(file, blockSize)| + GapOf(pattern) <= |view|
    ensures var c, r := Chunks(file, blockSize), NewPlacement(file, blockSize, next, pattern);
      && (forall i :: 0 <= i < |c| ==> |c[i]| <= blockSize && r.blocks[i] < |view|)
      && Holds(Placed(view, r.blocks, c, blockSize, |c|), base, r, file, blockSize, next + |c| + GapOf(pattern))
  {
    var c, r := Chunks(file, blockSize), NewPlacement(file, blockSize, next, pattern);
    BlocksInImageIffGapFits(next, |c|, pattern, |view|);
    forall i | 0 <= i < |c|
      ensures Placed(view, r.blocks, c, blockSize, |c|)[r.blocks[i]] == Overwrite(base[r.blocks[i]], c[i])
    {
      PlacedAt(view, r.blocks, c, blockSize, |c|, r.blocks[i]);
      UnusedFromNext(view, base, records, files, blockSize, next, r.blocks[i]);
    }
  }

  /** The recorded start block, the next free one, is the block of the first part, except for a gap file of one
      block. */
  lemma {:induction false} StartBlockIsFirstBlock(file: seq<Byte>, blockSize: nat, next: nat, pattern: Pattern)
    requires blockSize > 0 && file != []
    ensures var p := NewPlacement(file, blockSize, next, pattern);
      && p.startBlock == next && p.size == |file| && p.pattern == pattern
      && |p.blocks| == (|file| + blockSize - 1) / blockSize > 0
      && (p.blocks[0] == p.startBlock <==> !(pattern.Gap? && |file| <= blockSize))
  {
    var needed := |Chunks(file, blockSize)|;
    ChunksCount(file, blockSize);
    BlocksFollow(next, needed, pattern, 0);
    OneBlockIff(file, blockSize);
  }

  lemma {:induction false} OneBlockIff(file: seq<Byte>, blockSize: nat)
    requires blockSize > 0 && file != []
    ensures |Chunks(file, blockSize)| == 1 <==> |file| <= blockSize
    ensures |Chunks(file, blockSize)| > 0
  {
    if |file| > blockSize {
      assert Chunks(file[blockSize..], blockSize) != [];
    }
  }

  // ---------- in the image and behind it ----------

  ghost predicate InImage(r: Placement, total: nat) {
    forall i :: 0 <= i < |r.blocks| ==> r.blocks[i] < total
  }

  lemma {:induction false} GapIsSmall(pattern: Pattern)
    ensures GapOf(pattern) <= 2
  {
  }

  lemma {:induction false} PlacementInImage(file: seq<Byte>, blockSize: nat, next: nat, pattern: Pattern, total: nat)
    requires blockSize > 0 && file != []
    ensures InImage(NewPlacement(file, blockSize, next, pattern), total)
       <==> next + BlocksNeeded(|file|, blockSize) + GapOf(pattern) <= total
  {
    ChunksCount(file, blockSize);
    BlocksInImageIffGapFits(next, |Chunks(file, blockSize)|, pattern, total);
  }

  /** Placing a file changes no block but its own. */
  lemma {:induction false} OthersStay(view: seq<seq<Byte>>, file: seq<Byte>, blockSize: nat, next: nat,
        pattern: Pattern)
    requires blockSize > 0 && Uniform(view, blockSize) && file != []
    requires next + |Chunks(file, blockSize)| + GapOf(pattern) <= |view|
    ensures var c, r := Chunks(file, blockSize), NewPlacement(file, blockSize, next, pattern);
      && (forall i :: 0 <= i < |c| ==> |c[i]| <= blockSize && r.blocks[i] < |view|)
      && forall b :: 0 <= b < |view| && b !in r.blocks ==> Placed(view, r.blocks, c, blockSize, |c|)[b] == view[b]
  {
    var c, r := Chunks(file, blockSize), NewPlacement(file, blockSize, next, pattern);
    BlocksInImageIffGapFits(next, |c|, pattern, |view|);
    forall b | 0 <= b < |view| && b !in r.blocks
      ensures Placed(view, r.blocks, c, blockSize, |c|)[b] == view[b]
    {
      PlacedAt(view, r.blocks, c, blockSize, |c|, b);
    }
  }
}
