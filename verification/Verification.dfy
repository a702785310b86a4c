/** Readback verification of a constant pattern: full, or a sample of the blocks. */
module Verification {
  import opened Bytes
  import opened BlockErase

  const SAMPLE_BLOCKS: nat := 16

  datatype Mode = None | Sample | Full

  datatype Scope = NotApplicable | LogicalBlocks | Sampled

  datatype Status = Completed | Unsupported | EmptyFile | SeekError | ReadError

  datatype Summary = Summary(status: Status, scope: Scope, total: nat, checked: nat, failed: nat, passed: bool)

  /** Blocks of the file, the short last one included. */
  function TotalBlocks(size: nat, blockSize: nat): nat
    requires blockSize > 0
  {
    size / blockSize + (if size % blockSize != 0 then 1 else 0)
  }

  function SampleStep(total: nat, mode: Mode): (step: nat)
    ensures step >= 1
  {
    if mode.Sample? && total > SAMPLE_BLOCKS then total / SAMPLE_BLOCKS else 1
  }

  /** End of block `blk`: the last block stops at the end of the file. */
  function BlockEnd(size: nat, blockSize: nat, blk: nat): nat {
    if size < blk * blockSize + blockSize then size else blk * blockSize + blockSize
  }

  ghost predicate BlockMatches(file: seq<Byte>, blockSize: nat, expected: Byte, blk: nat) {
    forall i :: blk * blockSize <= i < BlockEnd(|file|, blockSize, blk) <= |file| ==> file[i] == expected
  }

  /** The blocks that a step visits from `blk` on. */
  function Visits(total: nat, step: nat, blk: nat): nat
    requires step > 0
    decreases total - blk
  {
    if blk >= total then 0 else 1 + Visits(total, step, blk + step)
  }

  /** How many of them do not match. */
  ghost function Failures(file: seq<Byte>, blockSize: nat, expected: Byte, total: nat, step: nat, blk: nat): nat
    requires step > 0
    decreases total - blk
  {
    if blk >= total then 0
    else
      var here := if BlockMatches(file, blockSize, expected, blk) then 0 else 1;
      here + Failures(file, blockSize, expected, total, step, blk + step)
  }

  // ---------- block arithmetic ----------

  lemma {:induction false} Products(a: nat, b: nat, c: nat)
    ensures a <= b ==> a * c <= b * c
    ensures (a + 1) * c == a * c + c
  {
  }

  lemma {:induction false} BlockInFile(size: nat, blockSize: nat, blk: nat)
    requires blockSize > 0 && blk < TotalBlocks(size, blockSize)
    ensures blk * blockSize < size && blk * blockSize < BlockEnd(size, blockSize, blk) <= size
  {
    Products(blk, size / blockSize, blockSize);
    Products(blk + 1, size / blockSize, blockSize);
  }

  /** The blocks partition the file: byte `i` lies in block `i / blockSize` and in no other. */
  lemma {:induction false} BlocksPartition(size: nat, blockSize: nat, i: nat, blk: nat)
    requires blockSize > 0 && i < size
    ensures i / blockSize < TotalBlocks(size, blockSize)
    ensures blk * blockSize <= i < BlockEnd(size, blockSize, blk) <==> blk == i / blockSize
  {
    QuotientMonotone(i, size, blockSize);
    OnlyBlock(blockSize, i, blk);
  }

  /** Ignoring the end of the file: `i` lies in the block of its quotient only. */
  lemma {:induction false} OnlyBlock(blockSize: nat, i: nat, blk: nat)
    requires blockSize > 0
    ensures blk * blockSize <= i < blk * blockSize + blockSize <==> blk == i / blockSize
  {
    var q := i / blockSize;
    QuotientBounds(i, blockSize);
    Products(blk + 1, q, blockSize);
    Products(blk, q, blockSize);
    Products(q + 1, blk, blockSize);
    Products(q, blk, blockSize);
  }

  lemma {:induction false} QuotientBounds(i: nat, blockSize: nat)
    requires blockSize > 0
    ensures i / blockSize * blockSize <= i < i / blockSize * blockSize + blockSize
  {
  }

  lemma {:induction false} QuotientMonotone(i: nat, size: nat, blockSize: nat)
    requires blockSize > 0 && i < size
    ensures i / blockSize <= size / blockSize
    ensures size % blockSize == 0 ==> i / blockSize < size / blockSize
  {
    var q, n := i / blockSize, size / blockSize;
    assert q * blockSize + i % blockSize == i && n * blockSize + size % blockSize == size;
    Products(n, q, blockSize);
    Products(n + 1, q, blockSize);
  }

  /** All blocks match exactly when all bytes do. */
  lemma {:induction false} AllBlocksMatch(file: seq<Byte>, blockSize: nat, expected: Byte)
    requires blockSize > 0
    ensures (forall blk :: 0 <= blk < TotalBlocks(|file|, blockSize) ==> BlockMatches(file, blockSize, expected, blk))
       <==> (forall i :: 0 <= i < |file| ==> file[i] == expected)
  {
    hide TotalBlocks;
    if forall blk :: 0 <= blk < TotalBlocks(|file|, blockSize) ==> BlockMatches(file, blockSize, expected, blk) {
      forall i | 0 <= i < |file|
        ensures file[i] == expected
      {
        var blk := BlockOf(|file|, blockSize, i);
        assert BlockMatches(file, blockSize, expected, blk);
      }
    }
  }

  lemma {:induction false} BlockOf(size: nat, blockSize: nat, i: nat) returns (blk: nat)
    requires blockSize > 0 && i < size
    ensures blk < TotalBlocks(size, blockSize) && blk * blockSize <= i < BlockEnd(size, blockSize, blk) <= size
  {
    blk := i / blockSize;
    BlocksPartition(size, blockSize, i, blk);
    BlockInFile(size, blockSize, blk);
  }

  // ---------- the loop ----------

  /** The block of visit `k`, from block `blk` on. */
  function Visit(blk: nat, step: nat, k: nat): nat {
    blk + k * step
  }

  lemma {:induction false} VisitLater(blk: nat, step: nat, k: nat)
    ensures Visit(blk, step, k + 1) == Visit(blk + step, step, k)
    ensures Visit(blk, step, 0) == blk && Visit(blk, step, k) >= blk
  {
  }

  /** Every block of the first `total` that a loop with this step visits from `blk` on has the property. */
  ghost predicate AllVisits(total: nat, step: nat, blk: nat, p: nat -> bool) {
    forall k: nat :: Visit(blk, step, k) < total ==> p(Visit(blk, step, k))
  }

  lemma {:induction false} AllVisitsNext(total: nat, step: nat, blk: nat, p: nat -> bool)
    requires blk < total
    ensures AllVisits(total, step, blk, p) <==> p(blk) && AllVisits(total, step, blk + step, p)
  {
    hide Visit;
    VisitLater(blk, step, 0);
    var next := blk + step;
    if AllVisits(total, step, blk, p) {
      forall k: nat | Visit(next, step, k) < total ensures p(Visit(next, step, k)) {
        VisitLater(blk, step, k);
        assert p(Visit(blk, step, k + 1));
      }
    }
    if p(blk) && AllVisits(total, step, blk + step, p) {
      forall k: nat | Visit(blk, step, k) < total ensures p(Visit(blk, step, k)) {
        if k > 0 {
          VisitLater(blk, step, k - 1);
        }
      }
    }
  }

  lemma {:induction false} NoVisits(total: nat, step: nat, blk: nat, p: nat -> bool)
    requires blk >= total
    ensures AllVisits(total, step, blk, p)
  {
    hide Visit;
    forall k: nat ensures Visit(blk, step, k) >= blk {
      VisitLater(blk, step, k);
    }
  }

  /** With step 1 every block is visited. */
  lemma {:induction false} EveryBlockVisited(total: nat, p: nat -> bool)
    ensures AllVisits(total, 1, 0, p) <==> forall b: nat :: b < total ==> p(b)
  {
    if AllVisits(total, 1, 0, p) {
      forall b: nat | b < total ensures p(b) {
        assert Visit(0, 1, b) == b;
      }
    }
  }

  ghost function Matching(file: seq<Byte>, blockSize: nat, expected: Byte): nat -> bool {
    (b: nat) => BlockMatches(file, blockSize, expected, b)
  }

  lemma {:induction false} NoFailures(file: seq<Byte>, blockSize: nat, expected: Byte, total: nat, step: nat, blk: nat)
    requires step > 0
    ensures Failures(file, blockSize, expected, total, step, blk) == 0
       <==> AllVisits(total, step, blk, Matching(file, blockSize, expected))
    decreases total - blk
  {
    hide BlockMatches, AllVisits;
    if blk < total {
      NoFailures(file, blockSize, expected, total, step, blk + step);
      AllVisitsNext(total, step, blk, Matching(file, blockSize, expected));
    } else {
      NoVisits(total, step, blk, Matching(file, blockSize, expected));
    }
  }

  /** The byte loop over one block. */
  method VerifyBlock(file: seq<Byte>, expected: Byte, blockSize: nat, blk: nat) returns (blockOk: bool)
    requires blockSize > 0 && blk < TotalBlocks(|file|, blockSize)
    ensures blockOk <==> BlockMatches(file, blockSize, expected, blk)
  {
    BlockInFile(|file|, blockSize, blk);
    var i := blk * blockSize;
    ghost var start := i;
    var end := BlockEnd(|file|, blockSize, blk);
    while i < end
      invariant start <= i <= end
      invariant forall j :: start <= j < i ==> file[j] == expected
    {
      if file[i] != expected {
        return false;
      }
      i := i + 1;
    }
    return true;
  }

  /** `verify_constant_pattern`. Block reads can fail: `seeks` and `readable` answer for each block. */
  method VerifyConstant(file: seq<Byte>, expected: Byte, blockSize: nat, mode: Mode, seeks: nat -> bool,
        readable: nat -> bool)
    returns (s: Summary)
    requires blockSize > 0
    ensures s == Readback(file, expected, blockSize, mode, seeks, readable)
  {
    if |file| == 0 {
      return Summary(EmptyFile, NotApplicable, 0, 0, 0, false);
    }
    var total := |file| / blockSize;
    if |file| % blockSize != 0 {
      total := total + 1;
    }
    assert total == TotalBlocks(|file|, blockSize);
    hide BlockMatches, TotalBlocks;
    var step := 1;
    if mode.Sample? && total > SAMPLE_BLOCKS {
      step := total / SAMPLE_BLOCKS;
    }
    var checked, failed, status := 0, 0, Completed;
    var blk: nat := 0;
    while blk < total
      invariant status == Completed
      invariant Loop(file, expected, blockSize, total, step, seeks, readable, blk, checked, failed)
             == Loop(file, expected, blockSize, total, step, seeks, readable, 0, 0, 0)
      decreases total - blk
    {
      if !seeks(blk) {
        status := SeekError;
        break;
      }
      if !readable(blk) {
        status := ReadError;
        break;
      }
      checked := checked + 1;
      var blockOk := VerifyBlock(file, expected, blockSize, blk);
      if !blockOk {
        failed := failed + 1;
      }
      blk := blk + step;
    }
    s := Summary(status, if mode.Sample? then Sampled else LogicalBlocks, total, checked, failed, failed == 0);
  }

  /** The loop as a function: the status, the blocks checked and the blocks failed at its end. */
  ghost function Loop(file: seq<Byte>, expected: Byte, blockSize: nat, total: nat, step: nat,
                      seeks: nat -> bool, readable: nat -> bool, blk: nat, checked: nat, failed: nat)
    : (Status, nat, nat)
    requires step > 0
    decreases total - blk
  {
    if blk >= total then (Completed, checked, failed)
    else if !seeks(blk) then (SeekError, checked, failed)
    else if !readable(blk) then (ReadError, checked, failed)
    else Loop(file, expected, blockSize, total, step, seeks, readable, blk + step, checked + 1,
              failed + (if BlockMatches(file, blockSize, expected, blk) then 0 else 1))
  }

  ghost function Readback(file: seq<Byte>, expected: Byte, blockSize: nat, mode: Mode, seeks: nat -> bool,
        readable: nat -> bool): Summary
    requires blockSize > 0
  {
    if |file| == 0 then Summary(EmptyFile, NotApplicable, 0, 0, 0, false)
    else
      var total := TotalBlocks(|file|, blockSize);
      var (status, checked, failed) :=
          Loop(file, expected, blockSize, total, SampleStep(total, mode), seeks, readable, 0, 0, 0);
      Summary(status, if mode.Sample? then Sampled else LogicalBlocks, total, checked, failed, failed == 0)
  }

  /** `verify_image_pattern`: no readback of a random pattern, and the block size clamped. */
  ghost function VerifyImage(file: seq<Byte>, pattern: Pattern, blockSize: nat, mode: Mode, seeks: nat -> bool,
        readable: nat -> bool): Summary {
    if pattern.Random? then Summary(Unsupported, NotApplicable, 0, 0, 0, false)
    else Readback(file, if pattern.Zero? then 0x00 else 0xFF, ClampBlockSize(blockSize), mode, seeks, readable)
  }

  method VerifyImagePattern(file: seq<Byte>, pattern: Pattern, blockSize: nat, mode: Mode, seeks: nat -> bool,
        readable: nat -> bool)
    returns (s: Summary)
    ensures s == VerifyImage(file, pattern, blockSize, mode, seeks, readable)
  {
    if pattern.Random? {
      return Summary(Unsupported, NotApplicable, 0, 0, 0, false);
    }
    s := VerifyConstant(file, if pattern.Zero? then 0x00 else 0xFF, ClampBlockSize(blockSize), mode, seeks, readable);
  }

  lemma {:induction false} LoopWithoutErrors(file: seq<Byte>, expected: Byte, blockSize: nat, total: nat, step: nat,
                                             seeks: nat -> bool, readable: nat -> bool, blk: nat, checked: nat,
                                                 failed: nat)
    requires step > 0 && (forall b :: seeks(b) && readable(b))
    ensures Loop(file, expected, blockSize, total, step, seeks, readable, blk, checked, failed)
         == (Completed, checked + Visits(total, step, blk),
             failed + Failures(file, blockSize, expected, total, step, blk))
    decreases total - blk
  {
    if blk < total {
      LoopWithoutErrors(file, expected, blockSize, total, step, seeks, readable, blk + step, checked + 1,
                        failed + (if BlockMatches(file, blockSize, expected, blk) then 0 else 1));
    }
  }

  // ---------- what a pass means ----------

  /** Without I/O errors a full verification (and VERIFY_NONE, which reads as much) passes exactly when
      every byte is the fill byte; every block is checked. */
  lemma {:induction false} FullPassIffAllBytes(file: seq<Byte>, expected: Byte, blockSize: nat, mode: Mode,
        seeks: nat -> bool, readable: nat -> bool)
    requires blockSize > 0 && |file| > 0 && !mode.Sample? && (forall b :: seeks(b) && readable(b))
    ensures var s := Readback(file, expected, blockSize, mode, seeks, readable);
      && s.status == Completed && s.checked == s.total
      && (s.passed <==> forall i :: 0 <= i < |file| ==> file[i] == expected)
  {
    hide TotalBlocks, BlockMatches, AllVisits, Failures, Loop;
    var total := TotalBlocks(|file|, blockSize);
    LoopWithoutErrors(file, expected, blockSize, total, 1, seeks, readable, 0, 0, 0);
    NoFailures(file, blockSize, expected, total, 1, 0);
    VisitsAll(total, 0);
    var good := Matching(file, blockSize, expected);
    EveryBlockVisited(total, good);
    assert forall b: nat :: good(b) == BlockMatches(file, blockSize, expected, b);
    AllBlocksMatch(file, blockSize, expected);
  }

  lemma {:induction false} VisitsAll(total: nat, blk: nat)
    requires blk <= total
    ensures Visits(total, 1, blk) == total - blk
    decreases total - blk
  {
    if blk < total {
      VisitsAll(total, blk + 1);
    }
  }

  /** Without I/O errors a sampled verification passes exactly when the sampled blocks match; block 0
      is one of them and the next is never more than `step` away. */
  lemma {:induction false} SamplePassIffSampledBlocks(file: seq<Byte>, expected: Byte, blockSize: nat,
        seeks: nat -> bool, readable: nat -> bool)
    requires blockSize > 0 && |file| > 0 && (forall b :: seeks(b) && readable(b))
    ensures var s := Readback(file, expected, blockSize, Sample, seeks, readable);
      var step := SampleStep(s.total, Sample);
      && s.total > 0
      && (s.passed <==> forall k: nat :: Visit(0, step, k) < s.total ==>
            BlockMatches(file, blockSize, expected, Visit(0, step, k)))
  {
    hide TotalBlocks, BlockMatches, Visit, Failures, Loop;
    var total := TotalBlocks(|file|, blockSize);
    BlocksPartition(|file|, blockSize, 0, 0);
    var step := SampleStep(total, Sample);
    LoopWithoutErrors(file, expected, blockSize, total, step, seeks, readable, 0, 0, 0);
    NoFailures(file, blockSize, expected, total, step, 0);
  }

  /** Every block has a sampled block less than `step` before it. */
  lemma {:induction false} SampleGaps(total: nat, step: nat, blk: nat) returns (k: nat)
    requires step > 0 && blk < total
    ensures Visit(0, step, k) <= blk < Visit(0, step, k) + step && Visit(0, step, k) < total
  {
    k := blk / step;
  }

  /** After a successful erase with ZERO or ONE, whatever the passes and the writes were like, the
      target verifies in every mode and with every block size. */
  lemma {:induction false} SuccessfulEraseVerifies(now: seq<Byte>, before: seq<Byte>, pattern: Pattern, passes: nat,
        io: Io, r: Result, reports: seq<Report>, written: nat, landed: nat,
                                blockSize: nat, mode: Mode, seeks: nat -> bool, readable: nat -> bool)
    requires Erased(now, before, pattern, passes, io, r, reports, written, landed)
    requires r.code == Ok && passes > 0 && !pattern.Random? && |now| > 0
    requires forall b :: seeks(b) && readable(b)
    ensures var s := VerifyImage(now, pattern, blockSize, mode, seeks, readable);
      s.status == Completed && s.passed && s.failed == 0
  {
    FilledAfterOnePass(now, before, pattern, passes, io, r, reports, written, landed);
    FilledPasses(now, if pattern.Zero? then 0x00 else 0xFF, ClampBlockSize(blockSize), mode, seeks, readable);
  }

  lemma {:induction false} FilledPasses(file: seq<Byte>, expected: Byte, blockSize: nat, mode: Mode,
        seeks: nat -> bool, readable: nat -> bool)
    requires blockSize > 0 && |file| > 0 && (forall b :: seeks(b) && readable(b))
    requires forall i :: 0 <= i < |file| ==> file[i] == expected
    ensures var s := Readback(file, expected, blockSize, mode, seeks, readable);
      s.status == Completed && s.passed && s.failed == 0
  {
    hide TotalBlocks, Loop, Failures, Visit, BlockMatches;
    var total := TotalBlocks(|file|, blockSize);
    var step := SampleStep(total, mode);
    LoopWithoutErrors(file, expected, blockSize, total, step, seeks, readable, 0, 0, 0);
    NoFailures(file, blockSize, expected, total, step, 0);
    FilledBlocksMatch(file, blockSize, expected);
  }

  lemma {:induction false} FilledBlocksMatch(file: seq<Byte>, blockSize: nat, expected: Byte)
    requires forall i :: 0 <= i < |file| ==> file[i] == expected
    ensures forall b: nat :: Matching(file, blockSize, expected)(b)
  {
    forall b: nat ensures Matching(file, blockSize, expected)(b) {
      assert BlockMatches(file, blockSize, expected, b);
    }
  }

  // ---------- how much is sampled ----------

  lemma {:induction false} VisitsCount(total: nat, step: nat, blk: nat, k: nat)
    requires step > 0 && blk < total && blk + k * step < total <= blk + (k + 1) * step
    ensures Visits(total, step, blk) == k + 1
    decreases k
  {
    if k > 0 {
      assert (blk + step) + (k - 1) * step == blk + k * step && (blk + step) + k * step == blk + (k + 1) * step;
      assert k * step >= step;
      VisitsCount(total, step, blk + step, k - 1);
    } else {
      assert blk + step >= total;
    }
  }

  /** The number of blocks a sample checks: all of them up to 16, otherwise the quotient of the total
      by the step rounded up, which is at least 16 and at most 31. */
  lemma {:induction false} SampleSize(file: seq<Byte>, expected: Byte, blockSize: nat, seeks: nat -> bool,
        readable: nat -> bool)
    requires blockSize > 0 && |file| > 0 && (forall b :: seeks(b) && readable(b))
    ensures var s := Readback(file, expected, blockSize, Sample, seeks, readable);
      if s.total <= SAMPLE_BLOCKS then s.checked == s.total
      else
        var step := s.total / SAMPLE_BLOCKS;
        step > 0 && s.checked == (s.total + step - 1) / step && 16 <= s.checked <= 31
  {
    var total := TotalBlocks(|file|, blockSize);
    var step := SampleStep(total, Sample);
    LoopWithoutErrors(file, expected, blockSize, total, step, seeks, readable, 0, 0, 0);
    if total <= SAMPLE_BLOCKS {
      VisitsAll(total, 0);
    } else {
      SampleArithmetic(total, step);
      VisitsCount(total, step, 0, (total + step - 1) / step - 1);
    }
  }

  lemma {:induction false} SampleArithmetic(total: nat, step: nat)
    requires total > SAMPLE_BLOCKS && step == total / SAMPLE_BLOCKS
    ensures var n := (total + step - 1) / step; 16 <= n <= 31 && (n - 1) * step < total <= n * step
  {
    var n := (total + step - 1) / step;
    var r := (total + step - 1) % step;
    assert n * step + r == total + step - 1;
    assert (n - 1) * step == n * step - step;
    assert 16 * step <= total <= 16 * step + 15;
    Products(32, n, step);
    Products(n, 15, step);
  }

  // ---------- a failed readback ----------

  ghost function Readable(seeks: nat -> bool, readable: nat -> bool): nat -> bool {
    (b: nat) => seeks(b) && readable(b)
  }

  /** The loop reaches block `b`: neither it nor a block visited before it fails to seek or read. */
  ghost predicate Reached(step: nat, blk: nat, ok: nat -> bool, b: nat) {
    AllVisits(b + 1, step, blk, ok)
  }

  /** Every block that the loop reaches from `blk` on is good. */
  ghost predicate ReachedGood(total: nat, step: nat, blk: nat, ok: nat -> bool, good: nat -> bool) {
    forall k: nat :: Visit(blk, step, k) < total && Reached(step, blk, ok, Visit(blk, step, k))
        ==> good(Visit(blk, step, k))
  }

  lemma {:induction false} ReachedNext(step: nat, blk: nat, ok: nat -> bool, b: nat)
    requires b >= blk
    ensures Reached(step, blk, ok, b) <==> ok(blk) && Reached(step, blk + step, ok, b)
  {
    hide AllVisits;
    AllVisitsNext(b + 1, step, blk, ok);
  }

  lemma {:induction false} ReachedGoodNext(total: nat, step: nat, blk: nat, ok: nat -> bool, good: nat -> bool)
    requires step > 0 && blk < total
    ensures ReachedGood(total, step, blk, ok, good)
       <==> (ok(blk) ==> good(blk) && ReachedGood(total, step, blk + step, ok, good))
  {
    hide Visit, Reached;
    VisitLater(blk, step, 0);
    ReachedNext(step, blk, ok, blk);
    ReachedFirst(step, blk, ok);
    var next := blk + step;
    if ReachedGood(total, step, blk, ok, good) && ok(blk) {
      forall k: nat | Visit(next, step, k) < total && Reached(step, next, ok, Visit(next, step, k))
        ensures good(Visit(next, step, k))
      {
        VisitLater(blk, step, k);
        VisitLater(blk, step, k + 1);
        ReachedNext(step, blk, ok, Visit(blk, step, k + 1));
      }
    }
    if ok(blk) ==> (good(blk) && ReachedGood(total, step, blk + step, ok, good)) {
      forall k: nat | Visit(blk, step, k) < total && Reached(step, blk, ok, Visit(blk, step, k))
        ensures good(Visit(blk, step, k))
      {
        VisitLater(blk, step, k);
        ReachedNext(step, blk, ok, Visit(blk, step, k));
        if k > 0 {
          VisitLater(blk, step, k - 1);
        }
      }
    }
  }

  lemma {:induction false} ReachedFirst(step: nat, blk: nat, ok: nat -> bool)
    requires step > 0
    ensures Reached(step, blk + step, ok, blk)
  {
    hide AllVisits;
    NoVisits(blk + 1, step, blk + step, ok);
  }

  lemma {:induction false} NothingToReach(total: nat, step: nat, blk: nat, ok: nat -> bool, good: nat -> bool)
    requires blk >= total
    ensures ReachedGood(total, step, blk, ok, good)
  {
    hide Visit, Reached;
    forall k: nat ensures Visit(blk, step, k) >= blk {
      VisitLater(blk, step, k);
    }
  }

  /** The loop adds no failure if and only if every block it reaches matches. */
  lemma {:induction false} LoopPassesIff(file: seq<Byte>, expected: Byte, blockSize: nat, total: nat, step: nat,
                                         seeks: nat -> bool, readable: nat -> bool, blk: nat, checked: nat, failed: nat)
    requires step > 0
    ensures var f := Loop(file, expected, blockSize, total, step, seeks, readable, blk, checked, failed).2;
      && f >= failed
      && (f == failed <==>
            ReachedGood(total, step, blk, Readable(seeks, readable), Matching(file, blockSize, expected)))
    decreases total - blk
  {
    hide BlockMatches, ReachedGood;
    var ok, good := Readable(seeks, readable), Matching(file, blockSize, expected);
    if blk < total {
      ReachedGoodNext(total, step, blk, ok, good);
      if seeks(blk) && readable(blk) {
        LoopPassesIff(file, expected, blockSize, total, step, seeks, readable, blk + step, checked + 1,
                      failed + (if BlockMatches(file, blockSize, expected, blk) then 0 else 1));
      }
    } else {
      NothingToReach(total, step, blk, ok, good);
    }
  }

  /** `verification_passed` exactly, in every mode and whatever the I/O does: all the blocks match that
      were visited before a seek or read failed. */
  lemma {:induction false} PassedIffReachedBlocksMatch(file: seq<Byte>, expected: Byte, blockSize: nat, mode: Mode,
                                    seeks: nat -> bool, readable: nat -> bool)
    requires blockSize > 0 && |file| > 0
    ensures var s := Readback(file, expected, blockSize, mode, seeks, readable);
      var step := SampleStep(s.total, mode);
      s.passed <==>
        ReachedGood(s.total, step, 0, Readable(seeks, readable), Matching(file, blockSize, expected))
  {
    hide ReachedGood, TotalBlocks, Loop;
    var total := TotalBlocks(|file|, blockSize);
    LoopPassesIff(file, expected, blockSize, total, SampleStep(total, mode), seeks, readable, 0, 0, 0);
  }

  /** The same for a readback that is not sampled, block by block. */
  lemma {:induction false} FullPassedIffReachedBlocksMatch(file: seq<Byte>, expected: Byte, blockSize: nat, mode: Mode,
                                        seeks: nat -> bool, readable: nat -> bool)
    requires blockSize > 0 && |file| > 0 && !mode.Sample?
    ensures var s := Readback(file, expected, blockSize, mode, seeks, readable);
      s.passed <==> forall b: nat :: b < s.total && (forall j: nat :: j <= b ==> seeks(j) && readable(j))
                      ==> BlockMatches(file, blockSize, expected, b)
  {
    hide BlockMatches, Readback, ReachedGood;
    var s := Readback(file, expected, blockSize, mode, seeks, readable);
    var ok, good := Readable(seeks, readable), Matching(file, blockSize, expected);
    PassedIffReachedBlocksMatch(file, expected, blockSize, mode, seeks, readable);
    ReachedGoodByOnes(s.total, ok, good);
    assert forall j: nat :: ok(j) == (seeks(j) && readable(j));
    assert forall b: nat :: good(b) == BlockMatches(file, blockSize, expected, b);
  }

  lemma {:induction false} ReachedGoodByOnes(total: nat, ok: nat -> bool, good: nat -> bool)
    ensures ReachedGood(total, 1, 0, ok, good)
       <==> forall b: nat :: b < total && (forall j: nat :: j <= b ==> ok(j)) ==> good(b)
  {
    hide AllVisits;
    forall b: nat
      ensures Reached(1, 0, ok, b) <==> forall j: nat :: j <= b ==> ok(j)
    {
      EveryBlockVisited(b + 1, ok);
    }
    assert forall b: nat :: Visit(0, 1, b) == b;
    if ReachedGood(total, 1, 0, ok, good) {
      forall b: nat | b < total && (forall j: nat :: j <= b ==> ok(j)) ensures good(b) {
        assert Visit(0, 1, b) == b && Reached(1, 0, ok, b);
      }
    }
  }

  /** A file of `size` bytes that all match, but for the first byte of block `b`. */
  function Spoiled(size: nat, blockSize: nat, expected: Byte, b: nat): (file: seq<Byte>)
    ensures |file| == size
  {
    seq(size, i => if i == b * blockSize then 255 - expected else expected)
  }

  lemma {:induction false} SpoiledOnlyThere(size: nat, blockSize: nat, expected: Byte, b: nat, c: nat)
    requires blockSize > 0 && b < TotalBlocks(size, blockSize) && c < b
    ensures b * blockSize < size && Spoiled(size, blockSize, expected, b)[b * blockSize] != expected
    ensures BlockMatches(Spoiled(size, blockSize, expected, b), blockSize, expected, c)
  {
    BlockInFile(size, blockSize, b);
    BlockInFile(size, blockSize, c);
    Products(c + 1, b, blockSize);
    Products(c, c, blockSize);
  }

  lemma {:induction false} SpoiledFirst(size: nat, blockSize: nat, expected: Byte, b: nat)
    requires blockSize > 0 && b < TotalBlocks(size, blockSize)
    ensures b * blockSize < size && Spoiled(size, blockSize, expected, b)[b * blockSize] != expected
  {
    BlockInFile(size, blockSize, b);
  }

  ghost predicate AllRead(total: nat, seeks: nat -> bool, readable: nat -> bool) {
    forall b: nat :: b < total ==> seeks(b) && readable(b)
  }

  ghost predicate Filled(file: seq<Byte>, expected: Byte) {
    forall i :: 0 <= i < |file| ==> file[i] == expected
  }

  /** A passed verdict of full readback means what it says of every file of a size. */
  ghost predicate PassMeansFilled(size: nat, expected: Byte, blockSize: nat, mode: Mode,
                                  seeks: nat -> bool, readable: nat -> bool)
    requires blockSize > 0
  {
    forall file: seq<Byte> :: |file| == size && Readback(file, expected, blockSize, mode, seeks, readable).passed
      ==> Filled(file, expected)
  }

  /** When a passed verdict can be trusted: a readback that is not sampled proves the fill if and only if
      every seek and read of it succeeds, which is when the status is not an error. */
  lemma {:induction false} TrustedIffAllRead(size: nat, expected: Byte, blockSize: nat, mode: Mode, seeks: nat -> bool,
        readable: nat -> bool)
    requires blockSize > 0 && size > 0 && !mode.Sample?
    ensures PassMeansFilled(size, expected, blockSize, mode, seeks, readable)
       <==> AllRead(TotalBlocks(size, blockSize), seeks, readable)
  {
    hide BlockMatches, Readback, TotalBlocks, Spoiled;
    var total := TotalBlocks(size, blockSize);
    if AllRead(total, seeks, readable) {
      forall file: seq<Byte> | |file| == size && Readback(file, expected, blockSize, mode, seeks, readable).passed
        ensures Filled(file, expected)
      {
        TrustedFile(file, expected, blockSize, mode, seeks, readable);
      }
    } else {
      var b :| 0 <= b < total && !(seeks(b) && readable(b));
      SpoiledPasses(size, expected, blockSize, mode, seeks, readable, b);
      SpoiledFirst(size, blockSize, expected, b);
      assert !Filled(Spoiled(size, blockSize, expected, b), expected);
    }
  }

  lemma {:induction false} TotalOf(file: seq<Byte>, expected: Byte, blockSize: nat, mode: Mode, seeks: nat -> bool,
        readable: nat -> bool)
    requires blockSize > 0 && |file| > 0
    ensures Readback(file, expected, blockSize, mode, seeks, readable).total == TotalBlocks(|file|, blockSize)
  {
  }

  lemma {:induction false} TrustedFile(file: seq<Byte>, expected: Byte, blockSize: nat, mode: Mode, seeks: nat -> bool,
        readable: nat -> bool)
    requires blockSize > 0 && |file| > 0 && !mode.Sample? && AllRead(TotalBlocks(|file|, blockSize), seeks, readable)
    requires Readback(file, expected, blockSize, mode, seeks, readable).passed
    ensures Filled(file, expected)
  {
    hide BlockMatches, Readback, TotalBlocks;
    FullPassedIffReachedBlocksMatch(file, expected, blockSize, mode, seeks, readable);
    TotalOf(file, expected, blockSize, mode, seeks, readable);
    AllBlocksMatch(file, blockSize, expected);
  }

  lemma {:induction false} SpoiledPasses(size: nat, expected: Byte, blockSize: nat, mode: Mode, seeks: nat -> bool,
        readable: nat -> bool, b: nat)
    requires blockSize > 0 && size > 0 && !mode.Sample? && b < TotalBlocks(size, blockSize)
    requires !(seeks(b) && readable(b))
    ensures Readback(Spoiled(size, blockSize, expected, b), expected, blockSize, mode, seeks, readable).passed
  {
    hide BlockMatches, Readback, TotalBlocks;
    var file := Spoiled(size, blockSize, expected, b);
    FullPassedIffReachedBlocksMatch(file, expected, blockSize, mode, seeks, readable);
    TotalOf(file, expected, blockSize, mode, seeks, readable);
    forall c: nat | c < TotalBlocks(size, blockSize) && (forall j: nat :: j <= c ==> seeks(j) && readable(j))
      ensures BlockMatches(file, blockSize, expected, c)
    {
      SpoiledOnlyThere(size, blockSize, expected, b, c);
    }
  }

  /** In particular, when the first read fails `verification_passed` is true of every file, whatever its
      bytes. A caller must look at the result code as well. */
  lemma {:induction false} PassedWithoutReading(file: seq<Byte>, expected: Byte, blockSize: nat, mode: Mode,
        seeks: nat -> bool, readable: nat -> bool)
    requires blockSize > 0 && |file| > 0 && !(seeks(0) && readable(0))
    ensures var s := Readback(file, expected, blockSize, mode, seeks, readable);
      s.passed && s.checked == 0 && s.status != Completed
  {
    hide BlockMatches;
    BlocksPartition(|file|, blockSize, 0, 0);
  }

  /** The status tells: it is an error exactly when a block that the loop would visit cannot be read. */
  lemma {:induction false} CompletedIffAllVisitsRead(file: seq<Byte>, expected: Byte, blockSize: nat, total: nat,
        step: nat, seeks: nat -> bool, readable: nat -> bool, blk: nat, checked: nat, failed: nat)
    requires step > 0
    ensures Loop(file, expected, blockSize, total, step, seeks, readable, blk, checked, failed).0 == Completed
       <==> AllVisits(total, step, blk, Readable(seeks, readable))
    decreases total - blk
  {
    hide BlockMatches, AllVisits;
    if blk < total {
      AllVisitsNext(total, step, blk, Readable(seeks, readable));
      if seeks(blk) && readable(blk) {
        CompletedIffAllVisitsRead(file, expected, blockSize, total, step, seeks, readable, blk + step, checked + 1,
                                  failed + (if BlockMatches(file, blockSize, expected, blk) then 0 else 1));
      }
    } else {
      NoVisits(total, step, blk, Readable(seeks, readable));
    }
  }

  /** With the result code, the claim is sound: a completed full verification that passed saw every byte,
      whatever the I/O oracle would have said elsewhere. */
  lemma {:induction false} CompletedFullPassIsSound(file: seq<Byte>, expected: Byte, blockSize: nat, mode: Mode,
                                 seeks: nat -> bool, readable: nat -> bool)
    requires blockSize > 0 && !mode.Sample?
    requires Readback(file, expected, blockSize, mode, seeks, readable).status == Completed
    requires Readback(file, expected, blockSize, mode, seeks, readable).passed
    ensures forall i :: 0 <= i < |file| ==> file[i] == expected
  {
    hide AllVisits, TotalBlocks, BlockMatches, Loop;
    var total := TotalBlocks(|file|, blockSize);
    CompletedIffAllVisitsRead(file, expected, blockSize, total, 1, seeks, readable, 0, 0, 0);
    var ok := Readable(seeks, readable);
    EveryBlockVisited(total, ok);
    assert forall b: nat :: ok(b) == (seeks(b) && readable(b));
    TrustedFile(file, expected, blockSize, mode, seeks, readable);
  }

  // ---------- the summary in full ----------

  /** Of the first `k` blocks visited, those that do not match. */
  ghost function BadVisits(file: seq<Byte>, expected: Byte, blockSize: nat, step: nat, k: nat): set<nat> {
    set j: nat | j < k && !BlockMatches(file, blockSize, expected, Visit(0, step, j))
  }

  /** The readback stops after `k` blocks: all of them read, and at the next visit the end, a failed seek, or a
      failed read. */
  ghost predicate StopsAfter(total: nat, step: nat, seeks: nat -> bool, readable: nat -> bool, k: nat,
        status: Status) {
    && (forall j: nat :: j < k ==>
          Visit(0, step, j) < total && seeks(Visit(0, step, j)) && readable(Visit(0, step, j)))
    && var next := Visit(0, step, k);
      match status
      case Completed => next >= total
      case SeekError => next < total && !seeks(next)
      case ReadError => next < total && seeks(next) && !readable(next)
      case _ => false
  }

  lemma {:induction false} OneMoreVisit(file: seq<Byte>, expected: Byte, blockSize: nat, step: nat, i: nat)
    ensures var bad := BadVisits(file, expected, blockSize, step, i);
      && BadVisits(file, expected, blockSize, step, i + 1)
         == (if BlockMatches(file, blockSize, expected, Visit(0, step, i)) then bad else bad + {i})
      && |BadVisits(file, expected, blockSize, step, i + 1)|
         == |bad| + (if BlockMatches(file, blockSize, expected, Visit(0, step, i)) then 0 else 1)
  {
    hide BlockMatches;
    var bad, more := BadVisits(file, expected, blockSize, step, i), BadVisits(file, expected, blockSize, step, i + 1);
    assert i !in bad;
    if BlockMatches(file, blockSize, expected, Visit(0, step, i)) {
      assert more == bad;
    } else {
      assert more == bad + {i};
    }
  }

  lemma {:induction false} LoopStops(file: seq<Byte>, expected: Byte, blockSize: nat, total: nat, step: nat,
        seeks: nat -> bool, readable: nat -> bool, i: nat) returns (k: nat)
    requires step > 0 && forall j: nat :: j < i ==>
      Visit(0, step, j) < total && seeks(Visit(0, step, j)) && readable(Visit(0, step, j))
    ensures var (status, checked, failed) := Loop(file, expected, blockSize, total, step, seeks, readable,
        Visit(0, step, i), i, |BadVisits(file, expected, blockSize, step, i)|);
      && checked == k && failed == |BadVisits(file, expected, blockSize, step, k)|
      && StopsAfter(total, step, seeks, readable, k, status)
    decreases total - Visit(0, step, i)
  {
    hide BlockMatches, BadVisits, Visit;
    var blk := Visit(0, step, i);
    k := i;
    if blk < total && seeks(blk) && readable(blk) {
      OneMoreVisit(file, expected, blockSize, step, i);
      NextVisit(step, i);
      k := LoopStops(file, expected, blockSize, total, step, seeks, readable, i + 1);
    }
  }

  lemma {:induction false} NextVisit(step: nat, i: nat)
    ensures Visit(0, step, i + 1) == Visit(0, step, i) + step
  {
  }

  /** Every field of the summary: a random pattern and an empty file are not read and never pass; otherwise the
      blocks counted as checked are those read before the loop stopped, the blocks counted as failed are those
      of them that do not match, the status says why it stopped, and the scope what was looked at. */
  lemma {:induction false} SummaryIs(file: seq<Byte>, pattern: Pattern, blockSize: nat, mode: Mode,
        seeks: nat -> bool, readable: nat -> bool) returns (k: nat)
    ensures var s := VerifyImage(file, pattern, blockSize, mode, seeks, readable);
      && (pattern == Random ==> s == Summary(Unsupported, NotApplicable, 0, 0, 0, false))
      && (pattern != Random && file == [] ==> s == Summary(EmptyFile, NotApplicable, 0, 0, 0, false))
      && (pattern != Random && file != [] ==>
            var bs, expected := ClampBlockSize(blockSize), if pattern == Zero then 0x00 else 0xFF;
            var total := (|file| + bs - 1) / bs;
            var step := if mode == Sample && total > 16 then total / 16 else 1;
            && s.total == total && s.checked == k && s.failed == |BadVisits(file, expected, bs, step, k)|
            && StopsAfter(total, step, seeks, readable, k, s.status)
            && s.scope == (if mode == Sample then Sampled else LogicalBlocks) && (s.passed <==> s.failed == 0))
  {
    hide BlockMatches, Visit, StopsAfter, TotalBlocks, Loop;
    k := 0;
    if pattern != Random && file != [] {
      var bs, expected := ClampBlockSize(blockSize), if pattern == Zero then 0x00 else 0xFF;
      RoundedUp(|file|, bs);
      var total := TotalBlocks(|file|, bs);
      var step := SampleStep(total, mode);
      FirstVisit(file, expected, bs, step);
      k := LoopStops(file, expected, bs, total, step, seeks, readable, 0);
    }
  }

  lemma {:induction false} FirstVisit(file: seq<Byte>, expected: Byte, blockSize: nat, step: nat)
    ensures Visit(0, step, 0) == 0 && BadVisits(file, expected, blockSize, step, 0) == {}
  {
  }

  lemma {:induction false} RoundedUp(size: nat, blockSize: nat)
    requires blockSize > 0
    ensures TotalBlocks(size, blockSize) == (size + blockSize - 1) / blockSize
  {
    var q, r := size / blockSize, size % blockSize;
    var x := size + blockSize - 1;
    var n := if r != 0 then q + 1 else q;
    var rest := if r != 0 then r - 1 else blockSize - 1;
    assert x == n * blockSize + rest;
    DivisionIs(x, blockSize, n, rest);
  }

  lemma {:induction false} DivisionIs(x: nat, d: nat, q: nat, r: nat)
    requires d > 0 && r < d && x == q * d + r
    ensures x / d == q
  {
    var p, s := x / d, x % d;
    assert x == p * d + s;
    assert (q - p) * d == s - r;
    assert q - p >= 1 ==> (q - p) * d >= d;
    assert p - q >= 1 ==> (p - q) * d >= d;
  }
}
