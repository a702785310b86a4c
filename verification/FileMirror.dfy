/**
 The file mirror's two views of an evidence image: the actual blocks, and the apparent blocks that
 remain when covered ones are hidden. The index maps are rank and select over the covered mask.
 */
module FileMirrors {
  import opened Bytes
  import opened Counting

  /** The mask and the cached number of uncovered blocks. */
  datatype Mirror = Mirror(mask: seq<bool>, apparent: nat)

  /** A block index, or the all-ones sentinel. */
  datatype Index = Block(n: nat) | NoBlock

  predicate Uncovered(covered: bool) { !covered }

  /** Uncovered blocks before `b`. */
  function Rank(mask: seq<bool>, b: nat): nat
    requires b <= |mask|
  {
    Count(mask[..b], Uncovered)
  }

  // ---------- the operations on values ----------

  function Mark(m: Mirror, b: nat): Mirror {
    if b < |m.mask| && !m.mask[b]
    then Mirror(m.mask[b := true], if m.apparent > 0 then m.apparent - 1 else 0)
    else m
  }

  function Unmark(m: Mirror, b: nat): Mirror {
    if b < |m.mask| && m.mask[b] then Mirror(m.mask[b := false], m.apparent + 1) else m
  }

  /** The scan of `file_mirror_apparent_to_actual` from block `i` on, `seen` uncovered blocks passed. */
  function Scan(mask: seq<bool>, k: nat, i: nat, seen: nat): Index
    requires i <= |mask|
    decreases |mask| - i
  {
    if i == |mask| then NoBlock
    else if mask[i] then Scan(mask, k, i + 1, seen)
    else if seen == k then Block(i)
    else Scan(mask, k, i + 1, seen + 1)
  }

  function ToActual(m: Mirror, k: nat): Index {
    if k >= m.apparent then NoBlock else Scan(m.mask, k, 0, 0)
  }

  function ToApparent(m: Mirror, b: nat): Index {
    if b >= |m.mask| || m.mask[b] then NoBlock else Block(Rank(m.mask, b))
  }

  // ---------- the cached count ----------

  ghost predicate Exact(m: Mirror) {
    m.apparent == Count(m.mask, Uncovered)
  }

  datatype Change = Cover(b: nat) | Uncover(b: nat)

  function Apply(m: Mirror, c: Change): Mirror {
    match c
    case Cover(b) => Mark(m, b)
    case Uncover(b) => Unmark(m, b)
  }

  function ApplyAll(m: Mirror, cs: seq<Change>): Mirror
    decreases |cs|
  {
    if cs == [] then m else ApplyAll(Apply(m, cs[0]), cs[1..])
  }

  lemma {:induction false} ChangeKeepsExact(m: Mirror, c: Change)
    requires Exact(m)
    ensures Exact(Apply(m, c))
  {
    if c.b < |m.mask| {
      CountUpdate(m.mask, c.b, c.Cover?, Uncovered);
    }
  }

  /** From a new mirror, after any marks and unmarks, the cached count is the number of uncovered blocks. */
  lemma {:induction false} CountStaysExact(m: Mirror, cs: seq<Change>)
    requires Exact(m)
    ensures Exact(ApplyAll(m, cs))
    decreases |cs|
  {
    if cs != [] {
      ChangeKeepsExact(m, cs[0]);
      CountStaysExact(Apply(m, cs[0]), cs[1..]);
    }
  }

  lemma {:induction false} NewIsExact(n: nat)
    ensures Exact(Mirror(seq(n, _ => false), n))
  {
    CountPositive(seq(n, _ => false), Uncovered);
  }

  // ---------- rank and select ----------

  lemma {:induction false} RankStep(mask: seq<bool>, b: nat)
    requires b < |mask|
    ensures Rank(mask, b + 1) == Rank(mask, b) + (if mask[b] then 0 else 1)
  {
    CountSnoc(mask, b, Uncovered);
  }

  lemma {:induction false} RankMonotone(mask: seq<bool>, a: nat, b: nat)
    requires a <= b <= |mask|
    ensures Rank(mask, a) <= Rank(mask, b)
    ensures a < b && !mask[a] ==> Rank(mask, a) < Rank(mask, b)
    decreases b - a
  {
    if a < b {
      RankStep(mask, b - 1);
      RankMonotone(mask, a, b - 1);
    }
  }

  lemma {:induction false} RankOfAll(mask: seq<bool>)
    ensures Rank(mask, |mask|) == Count(mask, Uncovered)
  {
    assert mask[..|mask|] == mask;
  }

  /** The scan finds the uncovered block of rank `k`, if there is one from `i` on. */
  lemma {:induction false} ScanFinds(mask: seq<bool>, k: nat, i: nat)
    requires i <= |mask| && Rank(mask, i) <= k
    ensures var r := Scan(mask, k, i, Rank(mask, i));
      && (r.Block? <==> k < Rank(mask, |mask|))
      && (r.Block? ==> i <= r.n < |mask| && !mask[r.n] && Rank(mask, r.n) == k)
    decreases |mask| - i
  {
    if i < |mask| {
      RankStep(mask, i);
      RankMonotone(mask, i + 1, |mask|);
      if mask[i] || Rank(mask, i) != k {
        ScanFinds(mask, k, i + 1);
      }
    }
  }

  /** The maps are inverse bijections between the apparent indices and the uncovered blocks, and the
      scan never falls through for an index in range. */
  lemma {:induction false} MapsAreInverse(m: Mirror, k: nat, b: nat)
    requires Exact(m)
    ensures ToActual(m, k).Block? <==> k < m.apparent
    ensures k < m.apparent ==> ToApparent(m, ToActual(m, k).n) == Block(k)
    ensures ToApparent(m, b).Block? <==> b < |m.mask| && !m.mask[b]
    ensures ToApparent(m, b).Block? ==> ToApparent(m, b).n < m.apparent && ToActual(m, ToApparent(m, b).n) == Block(b)
  {
    RankOfAll(m.mask);
    assert Rank(m.mask, 0) == 0;
    ScanFinds(m.mask, k, 0);
    if b < |m.mask| && !m.mask[b] {
      var r := Rank(m.mask, b);
      RankMonotone(m.mask, b, |m.mask|);
      ScanFinds(m.mask, r, 0);
      var found := Scan(m.mask, r, 0, 0).n;
      if found < b {
        RankMonotone(m.mask, found, b);
      } else if b < found {
        RankMonotone(m.mask, b, found);
      }
    }
  }

  /** Both maps are strictly increasing. */
  lemma {:induction false} MapsAreIncreasing(m: Mirror, j: nat, k: nat)
    requires Exact(m) && j < k < m.apparent
    ensures ToActual(m, j).Block? && ToActual(m, k).Block? && ToActual(m, j).n < ToActual(m, k).n
  {
    MapsAreInverse(m, j, 0);
    MapsAreInverse(m, k, 0);
    var a, b := ToActual(m, j).n, ToActual(m, k).n;
    if b < a {
      RankMonotone(m.mask, b, a);
    }
  }

  /** Covering an uncovered block takes exactly it out of the apparent view: the uncovered blocks
      after it move down by one, those before it stay. */
  lemma {:induction false} CoveringShifts(m: Mirror, b: nat, x: nat)
    requires Exact(m) && b < |m.mask| && !m.mask[b]
    requires x < |m.mask| && x != b && !m.mask[x]
    ensures ToApparent(Mark(m, b), b) == NoBlock
    ensures ToApparent(m, x).Block? && (b < x ==> ToApparent(m, x).n > 0)
    ensures ToApparent(Mark(m, b), x) == Block(ToApparent(m, x).n - (if b < x then 1 else 0))
  {
    var mask := m.mask;
    var covered := mask[b := true];
    if b < x {
      RankMonotone(mask, b, x);
      assert covered[..x] == mask[..x][b := true];
      CountUpdate(mask[..x], b, true, Uncovered);
    } else {
      assert covered[..x] == mask[..x];
    }
  }

  /** Uncovering what was just covered restores the mirror. */
  lemma {:induction false} CoverThenUncover(m: Mirror, b: nat)
    requires Exact(m) && b < |m.mask| && !m.mask[b]
    ensures Unmark(Mark(m, b), b) == m
  {
    CountPositive(m.mask, Uncovered);
    assert Uncovered(m.mask[b]);
    assert m.mask[b := true][b := false] == m.mask;
  }

  // ---------- reading through the apparent view ----------

  /** What a block read delivers; out of range or short is an error. */
  datatype BlockRead = Data(bytes: seq<Byte>) | InvalidArg | IoError

  /** `delivers` is the answer of `pread` for a block that lies in the image: how many bytes it reads. */
  function ReadBlock(image: seq<Byte>, blockSize: nat, total: nat, delivers: nat -> int, b: nat): BlockRead {
    if b >= total then InvalidArg
    else if (b + 1) * blockSize > |image| || delivers(b) != blockSize then IoError
    else
      BlockBounds(b, blockSize);
      Data(image[b * blockSize..(b + 1) * blockSize])
  }

  lemma {:induction false} BlockBounds(b: nat, blockSize: nat)
    ensures b * blockSize <= (b + 1) * blockSize == b * blockSize + blockSize
  {
  }

  /** The uncovered blocks from block `i` on, in image order. */
  ghost function UncoveredFrom(mask: seq<bool>, i: nat): seq<nat>
    requires i <= |mask|
    decreases |mask| - i
  {
    if i == |mask| then [] else (if mask[i] then [] else [i]) + UncoveredFrom(mask, i + 1)
  }

  lemma {:induction false} ScanIndexesUncovered(mask: seq<bool>, k: nat, i: nat)
    requires i <= |mask| && Rank(mask, i) <= k
    ensures Scan(mask, k, i, Rank(mask, i)) ==
      if k - Rank(mask, i) < |UncoveredFrom(mask, i)| then Block(UncoveredFrom(mask, i)[k - Rank(mask, i)]) else NoBlock
    decreases |mask| - i
  {
    if i < |mask| {
      RankStep(mask, i);
      if mask[i] || Rank(mask, i) != k {
        ScanIndexesUncovered(mask, k, i + 1);
      }
    }
  }

  /** Apparent block `k` of a mirror is the k-th uncovered block of the image, nothing else: the
      apparent image is the image with the covered blocks cut out. */
  lemma {:induction false} ApparentViewIsTheUncoveredBlocks(m: Mirror, k: nat)
    requires Exact(m)
    ensures |UncoveredFrom(m.mask, 0)| == m.apparent
    ensures k < m.apparent ==> ToActual(m, k) == Block(UncoveredFrom(m.mask, 0)[k])
  {
    assert Rank(m.mask, 0) == 0;
    ScanIndexesUncovered(m.mask, k, 0);
    UncoveredLength(m.mask, 0);
    RankOfAll(m.mask);
  }

  lemma {:induction false} UncoveredLength(mask: seq<bool>, i: nat)
    requires i <= |mask|
    ensures |UncoveredFrom(mask, i)| + Rank(mask, i) == Rank(mask, |mask|)
    decreases |mask| - i
  {
    if i < |mask| {
      RankStep(mask, i);
      UncoveredLength(mask, i + 1);
    }
  }

  // ---------- the apparent image ----------

  /** The bytes of the whole blocks from block `i` on, the covered ones cut out. */
  ghost function CutOut(image: seq<Byte>, blockSize: nat, mask: seq<bool>, i: nat): seq<Byte>
    requires i <= |mask|
    requires |mask| * blockSize <= |image|
    decreases |mask| - i
  {
    if i == |mask| then []
    else
      BlockInside(i, |mask|, blockSize);
      (if mask[i] then [] else image[i * blockSize..i * blockSize + blockSize])
      + CutOut(image, blockSize, mask, i + 1)
  }

  lemma {:induction false} BlockInside(i: nat, n: nat, blockSize: nat)
    requires i < n
    ensures i * blockSize + blockSize == (i + 1) * blockSize <= n * blockSize
  {
  }

  /** What a read of apparent block `k` delivers when `pread` works. */
  ghost function ReadApparent(m: Mirror, image: seq<Byte>, blockSize: nat, k: nat): seq<Byte> {
    match ToActual(m, k)
    case NoBlock => []
    case Block(b) =>
      match ReadBlock(image, blockSize, |m.mask|, _ => blockSize, b) case Data(bytes) => bytes case _ => []
  }

  /** The reads of apparent block `k` and all after it, one after the other. */
  ghost function ReadOn(m: Mirror, image: seq<Byte>, blockSize: nat, k: nat): seq<Byte>
    decreases m.apparent - k
  {
    if k >= m.apparent then [] else ReadApparent(m, image, blockSize, k) + ReadOn(m, image, blockSize, k + 1)
  }

  /** Reading the apparent blocks in order gives the image with the covered blocks cut out, byte for byte. */
  lemma {:induction false} ReadsGiveImageCutOut(m: Mirror, image: seq<Byte>, blockSize: nat)
    requires Exact(m) && |m.mask| * blockSize <= |image|
    ensures ReadOn(m, image, blockSize, 0) == CutOut(image, blockSize, m.mask, 0)
  {
    assert Rank(m.mask, 0) == 0;
    ReadsFrom(m, image, blockSize, 0);
  }

  lemma {:induction false} ReadsFrom(m: Mirror, image: seq<Byte>, blockSize: nat, i: nat)
    requires Exact(m) && |m.mask| * blockSize <= |image| && i <= |m.mask|
    ensures ReadOn(m, image, blockSize, Rank(m.mask, i)) == CutOut(image, blockSize, m.mask, i)
    decreases |m.mask| - i
  {
    hide Exact, Rank, ReadApparent;
    RankOfAll(m.mask);
    CountIsExact(m);
    if i < |m.mask| {
      RankStep(m.mask, i);
      RankMonotone(m.mask, i + 1, |m.mask|);
      ReadsFrom(m, image, blockSize, i + 1);
      BlockInside(i, |m.mask|, blockSize);
      if !m.mask[i] {
        ReadsUncovered(m, image, blockSize, i);
      }
    }
  }

  lemma {:induction false} CountIsExact(m: Mirror)
    requires Exact(m)
    ensures m.apparent == Count(m.mask, Uncovered)
  {
  }

  lemma {:induction false} ReadsUncovered(m: Mirror, image: seq<Byte>, blockSize: nat, b: nat)
    requires Exact(m) && |m.mask| * blockSize <= |image| && b < |m.mask| && !m.mask[b]
    ensures b * blockSize + blockSize <= |image|
    ensures ReadApparent(m, image, blockSize, Rank(m.mask, b)) == image[b * blockSize..b * blockSize + blockSize]
  {
    MapsAreInverse(m, 0, b);
    BlockInside(b, |m.mask|, blockSize);
  }

  /** With nothing covered that is the image up to its last whole block. */
  lemma {:induction false} NothingCutOut(image: seq<Byte>, blockSize: nat, mask: seq<bool>, i: nat)
    requires i <= |mask| && |mask| * blockSize <= |image| && forall b :: 0 <= b < |mask| ==> !mask[b]
    ensures i * blockSize <= |mask| * blockSize
    ensures CutOut(image, blockSize, mask, i) == image[i * blockSize..|mask| * blockSize]
  {
    hide CutOut;
    NothingCutOutFrom(image, blockSize, mask, i, i * blockSize, |mask| * blockSize);
  }

  lemma {:induction false} NothingCutOutFrom(image: seq<Byte>, blockSize: nat, mask: seq<bool>, i: nat, from: nat,
        end: nat)
    requires i <= |mask| && from == i * blockSize && end == |mask| * blockSize <= |image|
    requires forall b :: 0 <= b < |mask| ==> !mask[b]
    ensures from <= end && CutOut(image, blockSize, mask, i) == image[from..end]
    decreases |mask| - i
  {
    hide CutOut;
    CutOutNext(image, blockSize, mask, i, from);
    if i < |mask| {
      NothingCutOutFrom(image, blockSize, mask, i + 1, from + blockSize, end);
      Joined(image, from, from + blockSize, end);
    }
  }

  lemma {:induction false} CutOutNext(image: seq<Byte>, blockSize: nat, mask: seq<bool>, i: nat, from: nat)
    requires i <= |mask| && from == i * blockSize && |mask| * blockSize <= |image|
    ensures i == |mask| ==> CutOut(image, blockSize, mask, i) == []
    ensures i < |mask| ==> from + blockSize == (i + 1) * blockSize <= |image|
    ensures i < |mask| && !mask[i] ==>
      CutOut(image, blockSize, mask, i) == image[from..from + blockSize] + CutOut(image, blockSize, mask, i + 1)
  {
    if i < |mask| {
      BlockInside(i, |mask|, blockSize);
    }
  }

  lemma {:induction false} Joined(s: seq<Byte>, a: nat, b: nat, c: nat)
    requires a <= b <= c <= |s|
    ensures s[a..b] + s[b..c] == s[a..c]
  {
  }

  // ---------- the structure with its mutable mask ----------

  class FileMirror {
    const image: seq<Byte>
    const blockSize: nat
    var totalBlocks: nat
    var coveredMask: array<bool>
    var apparentBlocks: nat

    ghost predicate Valid()
      reads this, coveredMask
    {
      && blockSize > 0 && totalBlocks == |image| / blockSize
      && coveredMask.Length == totalBlocks
      && Exact(Value())
    }

    ghost function Value(): Mirror
      reads this, coveredMask
    {
      Mirror(coveredMask[..], apparentBlocks)
    }

    constructor (image: seq<Byte>, blockSize: nat)
      requires blockSize > 0
      ensures Valid() && fresh(coveredMask)
      ensures this.image == image && this.blockSize == blockSize
      ensures Value() == Mirror(seq(|image| / blockSize, _ => false), |image| / blockSize)
    {
      this.image, this.blockSize := image, blockSize;
      var n := |image| / blockSize;
      totalBlocks, apparentBlocks := n, n;
      coveredMask := new bool[n](_ => false);
      NewIsExact(n);
      new;
      assert coveredMask[..] == seq(n, _ => false);
    }

    /** `file_mirror_open`: block size 0 is refused, and so is an image that cannot be opened. */
    static method Open(image: seq<Byte>, blockSize: nat, opens: bool) returns (mirror: FileMirror?)
      ensures mirror == null <==> blockSize == 0 || !opens
      ensures mirror != null ==> fresh(mirror) && mirror.Valid() && fresh(mirror.coveredMask)
      ensures mirror != null ==> mirror.image == image && mirror.blockSize == blockSize
      ensures mirror != null ==> mirror.Value() == Mirror(seq(|image| / blockSize, _ => false), |image| / blockSize)
    {
      if blockSize == 0 || !opens {
        return null;
      }
      mirror := new FileMirror(image, blockSize);
    }

    method MarkCovered(b: nat)
      requires Valid()
      modifies this, coveredMask
      ensures Valid() && coveredMask == old(coveredMask) && Value() == Mark(old(Value()), b)
      ensures coveredMask[..] == if b < totalBlocks then old(coveredMask[..])[b := true] else old(coveredMask[..])
    {
      ghost var before := Value();
      ChangeKeepsExact(before, Cover(b));
      if b < totalBlocks {
        if !coveredMask[b] {
          coveredMask[b] := true;
          if apparentBlocks > 0 {
            apparentBlocks := apparentBlocks - 1;
          }
        }
      }
      assert Value() == Mark(before, b);
    }

    method UnmarkCovered(b: nat)
      requires Valid()
      modifies this, coveredMask
      ensures Valid() && coveredMask == old(coveredMask) && Value() == Unmark(old(Value()), b)
      ensures coveredMask[..] == if b < totalBlocks then old(coveredMask[..])[b := false] else old(coveredMask[..])
    {
      ghost var before := Value();
      ChangeKeepsExact(before, Uncover(b));
      if b < totalBlocks {
        if coveredMask[b] {
          coveredMask[b] := false;
          apparentBlocks := apparentBlocks + 1;
        }
      }
      assert Value() == Unmark(before, b);
    }

    method ApparentToActual(k: nat) returns (r: Index)
      requires Valid()
      ensures r == ToActual(Value(), k)
    {
      if k >= apparentBlocks {
        return NoBlock;
      }
      var apparentCount := 0;
      var i := 0;
      while i < totalBlocks
        invariant i <= totalBlocks
        invariant Scan(coveredMask[..], k, i, apparentCount) == Scan(coveredMask[..], k, 0, 0)
      {
        if !coveredMask[i] {
          if apparentCount == k {
            return Block(i);
          }
          apparentCount := apparentCount + 1;
        }
        i := i + 1;
      }
      return NoBlock;
    }

    method ActualToApparent(b: nat) returns (r: Index)
      requires Valid()
      ensures r == ToApparent(Value(), b)
    {
      if b >= totalBlocks {
        return NoBlock;
      }
      var apparentCount := 0;
      var i := 0;
      while i < b
        invariant i <= b && apparentCount == Rank(coveredMask[..], i)
      {
        RankStep(coveredMask[..], i);
        if !coveredMask[i] {
          apparentCount := apparentCount + 1;
        }
        i := i + 1;
      }
      return if coveredMask[b] then NoBlock else Block(apparentCount);
    }

    /** `file_mirror_read_block`: a block of the image by its own index, covered or not. */
    method ReadActualBlock(b: nat, delivers: nat -> int) returns (r: BlockRead)
      requires Valid()
      ensures r == ReadBlock(image, blockSize, totalBlocks, delivers, b)
      ensures r.InvalidArg? <==> b >= |image| / blockSize
      ensures b < |image| / blockSize ==>
        && (r.Data? <==> delivers(b) == blockSize) && b * blockSize + blockSize <= |image|
        && (r.Data? ==> r.bytes == image[b * blockSize..b * blockSize + blockSize])
    {
      if b >= totalBlocks {
        return InvalidArg;
      }
      InImage(|image|, blockSize, b);
      BlockBounds(b, blockSize);
      if delivers(b) != blockSize {
        return IoError;
      }
      r := Data(image[b * blockSize..b * blockSize + blockSize]);
    }

    /** Reading an apparent block in range delivers the bytes of the uncovered block, unless `pread` fails or
        falls short: that is the only way to an I/O error. */
    method ReadApparentBlock(k: nat, delivers: nat -> int) returns (r: BlockRead, actual: Index)
      requires Valid()
      ensures r.InvalidArg? <==> k >= apparentBlocks
      ensures k < apparentBlocks ==>
        && actual == ToActual(Value(), k) && actual.Block?
        && r == ReadBlock(image, blockSize, totalBlocks, delivers, actual.n)
        && (r.Data? <==> delivers(actual.n) == blockSize)
        && actual.n * blockSize + blockSize <= |image|
        && (r.Data? ==> |r.bytes| == blockSize)
        && (forall j :: r.Data? && 0 <= j < blockSize ==> r.bytes[j] == image[actual.n * blockSize + j])
    {
      hide Scan, ReadBlock, Rank;
      if k >= apparentBlocks {
        return InvalidArg, NoBlock;
      }
      actual := ApparentToActual(k);
      MapsAreInverse(Value(), k, 0);
      InImage(|image|, blockSize, actual.n);
      assert (actual.n + 1) * blockSize == actual.n * blockSize + blockSize;
      r := ReadActualBlock(actual.n, delivers);
    }
  }

  lemma {:induction false} InImage(size: nat, blockSize: nat, b: nat)
    requires blockSize > 0 && b < size / blockSize
    ensures (b + 1) * blockSize <= size
  {
    assert (b + 1) * blockSize <= (size / blockSize) * blockSize <= size;
  }
}
