/**
 Multi-pass block overwrite of an image file or a device: passes, chunks and short writes, with the
 outcome of every system call left open. The target's bytes are overwritten in place.
 */
module BlockErase {
  import opened Bytes

  const MIN_BLOCK_SIZE: nat := 512
  const DEFAULT_BLOCK_SIZE: nat := 1024 * 1024
  const MAX_BLOCK_SIZE: nat := 64 * 1024 * 1024
  const DEFAULT_PASSES: nat := 1
  const MAX_PASSES: nat := 35

  datatype Pattern = Zero | One | Random

  datatype Code =
    | Ok | RealDevicePath | StatFailed | InvalidArg | OpenFailed | SeekFailed | Crypto | WriteFailed | SyncFailed
    | Confirmation | NotADevice | DeviceReadOnly | DeviceMounted | DeviceScanFail
    | PermissionDenied | DeviceBusy

  datatype Medium = Image | Device

  /** What the path names, for the checks before an image erase. */
  datatype Target = BlockDevice | Missing | NotRegular | Regular

  datatype Report = Report(done: nat, total: nat)

  datatype Result = Result(bytesWritten: nat, passesCompleted: nat, code: Code)

  /** The answer of `open` for a device; it fails for want of permission, because the device is in use, or
      for another reason. */
  datatype Opening = Opened | NotPermitted | InUse | NotOpened

  /** What is known of a device when its erase is requested. */
  datatype DeviceInfo = DeviceInfo(path: string, isBlockDevice: bool, readOnly: bool, mounted: bool,
        opening: Opening)

  /** The environment. Calls are named by pass and byte position: does the open or seek at the start
      of a pass work, does the random generator, how many bytes does a write deliver (an error or
      nothing when not positive; the answer of the retry when a signal interrupts it), does the
      flush work. `noise` is what the random generator puts at a position. */
  datatype Io = Io(
    starts: nat -> bool,
    random: (nat, nat) -> bool,
    noise: (nat, nat) -> Byte,
    delivers: (nat, nat) -> int,
    syncs: nat -> bool)

  function ClampBlockSize(n: nat): (r: nat)
    ensures 512 <= r <= 0x400_0000
    ensures 512 <= n <= 0x400_0000 ==> r == n
    ensures n < 512 ==> r == 0x10_0000
    ensures n > 0x400_0000 ==> r == 0x400_0000
  {
    if n < MIN_BLOCK_SIZE then DEFAULT_BLOCK_SIZE else if n > MAX_BLOCK_SIZE then MAX_BLOCK_SIZE else n
  }

  function ClampPasses(n: nat): (r: nat)
    ensures 1 <= r <= 35
    ensures 1 <= n <= 35 ==> r == n
    ensures n == 0 ==> r == 1
    ensures n > 35 ==> r == 35
  {
    if n == 0 then DEFAULT_PASSES else if n > MAX_PASSES then MAX_PASSES else n
  }

  /** The byte that a pass writes at a position. */
  function Written(pattern: Pattern, io: Io, pass: nat, i: nat): Byte {
    match pattern
    case Zero => 0x00
    case One => 0xFF
    case Random => (io.noise)(pass, i)
  }

  /** A target `done` full passes and `landed` bytes into the erase. */
  ghost predicate Progressed(now: seq<Byte>, before: seq<Byte>, pattern: Pattern, io: Io, done: nat, landed: nat) {
    && |now| == |before| && landed <= |now|
    && forall i :: 0 <= i < |now| ==>
         now[i] == if i < landed then Written(pattern, io, done, i)
                   else if done > 0 then Written(pattern, io, done - 1, i) else before[i]
  }

  /** Bytes `start..end` carry the pass's pattern, the others are as before. */
  ghost predicate Patched(now: seq<Byte>, before: seq<Byte>, pattern: Pattern, io: Io, pass: nat, start: nat,
        end: nat) {
    && |now| == |before| && start <= end <= |now|
    && forall i :: 0 <= i < |now| ==> now[i] == if start <= i < end then Written(pattern, io, pass, i) else before[i]
  }

  /** Every call of every pass does what it should. */
  ghost predicate AllWell(io: Io) {
    && (forall p :: (io.starts)(p) && (io.syncs)(p))
    && (forall p, i :: (io.random)(p, i) && (io.delivers)(p, i) > 0)
  }

  /** `fwrite` delivers the whole chunk. */
  ghost predicate WholeWrites(io: Io, blockSize: nat) {
    forall p, i :: (io.delivers)(p, i) >= blockSize
  }

  /** Fill the chunk buffer for the bytes at `position` on. */
  method FillPattern(buf: array<Byte>, len: nat, pattern: Pattern, io: Io, pass: nat,
        position: nat) returns (code: Code)
    requires len <= buf.Length
    modifies buf
    ensures code == if pattern.Random? && !(io.random)(pass, position) then Crypto else Ok
    ensures code == Ok ==> forall i :: 0 <= i < len ==> buf[i] == Written(pattern, io, pass, position + i)
  {
    if pattern.Random? && !(io.random)(pass, position) {
      return Crypto;
    }
    forall i | 0 <= i < len {
      buf[i] := Written(pattern, io, pass, position + i);
    }
    return Ok;
  }

  /** The bytes that one call delivers when `room` are asked for. */
  function Delivered(io: Io, pass: nat, position: nat, room: nat): (n: nat)
    ensures n <= room
    ensures (io.delivers)(pass, position) <= 0 ==> n == 0
    ensures 0 < (io.delivers)(pass, position) < room ==> n == (io.delivers)(pass, position)
    ensures room > 0 && (io.delivers)(pass, position) >= room ==> n == room
  {
    var w := (io.delivers)(pass, position);
    if w <= 0 then 0 else if w < room then w else room
  }

  /** A chunk is not all written: `fwrite` delivered what landed, or `write` nothing more behind it. */
  ghost predicate WriteStops(medium: Medium, io: Io, pass: nat, start: nat, chunk: nat, landed: nat) {
    && start <= landed < start + chunk
    && match medium
       case Device => (io.delivers)(pass, landed) <= 0
       case Image =>
         var n := (io.delivers)(pass, start);
         n < chunk && landed == if n > 0 then start + n else start
  }

  /** Why a pass stops where it does: `counted` bytes are through in whole chunks, `landed` bytes have landed. */
  ghost predicate StopsBecause(code: Code, medium: Medium, pattern: Pattern, io: Io, blockSize: nat, size: nat,
        pass: nat, counted: nat, landed: nat) {
    if !(io.starts)(pass) then counted == landed == 0 && code == if medium.Image? then OpenFailed else SeekFailed
    else
      match code
      case Crypto => pattern.Random? && counted == landed < size && !(io.random)(pass, counted)
      case WriteFailed =>
        var chunk := if size - counted < blockSize then size - counted else blockSize;
        counted < size && WriteStops(medium, io, pass, counted, chunk, landed)
      case SyncFailed => counted == landed == size && !(io.syncs)(pass)
      case _ => false
  }

  /** One `fwrite` for the chunk: anything less than all of it is a failure. */
  method WriteImageChunk(file: array<Byte>, buf: array<Byte>, pattern: Pattern, io: Io, pass: nat, start: nat,
        chunk: nat)
    returns (code: Code, landed: nat)
    requires start + chunk <= file.Length && 0 < chunk <= buf.Length && file != buf
    requires forall i :: 0 <= i < chunk ==> buf[i] == Written(pattern, io, pass, start + i)
    modifies file
    ensures code == if landed == start + chunk then Ok else WriteFailed
    ensures start <= landed <= start + chunk
    ensures Patched(file[..], old(file[..]), pattern, io, pass, start, landed)
    ensures WholeWrites(io, chunk) ==> code == Ok
    ensures var n := (io.delivers)(pass, start);
      landed == start + (if n <= 0 then 0 else if n < chunk then n else chunk)
  {
    var n := Delivered(io, pass, start, chunk);
    CopyBytes(file, buf, start, start, n);
    code, landed := if n == chunk then Ok else WriteFailed, start + n;
  }

  /** `write` until the chunk is through, going on after every short write. */
  method WriteDeviceChunk(file: array<Byte>, buf: array<Byte>, pattern: Pattern, io: Io, pass: nat, start: nat,
        chunk: nat)
    returns (code: Code, landed: nat)
    requires start + chunk <= file.Length && 0 < chunk <= buf.Length && file != buf
    requires forall i :: 0 <= i < chunk ==> buf[i] == Written(pattern, io, pass, start + i)
    modifies file
    ensures code == if landed == start + chunk then Ok else WriteFailed
    ensures start <= landed <= start + chunk
    ensures Patched(file[..], old(file[..]), pattern, io, pass, start, landed)
    ensures AllWell(io) ==> code == Ok
    ensures code != Ok ==> (io.delivers)(pass, landed) <= 0
  {
    landed := start;
    while landed < start + chunk
      invariant start <= landed <= start + chunk
      invariant forall i :: 0 <= i < chunk ==> buf[i] == Written(pattern, io, pass, start + i)
      invariant Patched(file[..], old(file[..]), pattern, io, pass, start, landed)
      decreases start + chunk - landed
    {
      var n := Delivered(io, pass, landed, start + chunk - landed);
      if n == 0 {
        return WriteFailed, landed;
      }
      CopyBytes(file, buf, start, landed, n);
      landed := landed + n;
    }
    code := Ok;
  }

  method WriteChunk(file: array<Byte>, buf: array<Byte>, medium: Medium, pattern: Pattern, io: Io, pass: nat,
        start: nat, chunk: nat)
    returns (code: Code, landed: nat)
    requires start + chunk <= file.Length && 0 < chunk <= buf.Length && file != buf
    requires forall i :: 0 <= i < chunk ==> buf[i] == Written(pattern, io, pass, start + i)
    modifies file
    ensures code == (if landed == start + chunk then Ok else WriteFailed) && start <= landed <= start + chunk
    ensures Patched(file[..], old(file[..]), pattern, io, pass, start, landed)
    ensures GoodRun(medium, io, chunk) ==> code == Ok
    ensures code != Ok ==> WriteStops(medium, io, pass, start, chunk, landed)
  {
    hide Patched, Written, AllWell, WholeWrites;
    if medium.Image? {
      code, landed := WriteImageChunk(file, buf, pattern, io, pass, start, chunk);
    } else {
      code, landed := WriteDeviceChunk(file, buf, pattern, io, pass, start, chunk);
    }
  }

  lemma {:induction false} SmallerGoodRun(medium: Medium, io: Io, blockSize: nat, chunk: nat)
    requires chunk <= blockSize
    ensures GoodRun(medium, io, blockSize) ==> GoodRun(medium, io, chunk)
  {
  }

  method CopyBytes(file: array<Byte>, buf: array<Byte>, start: nat, landed: nat, n: nat)
    requires start <= landed && landed + n <= file.Length && landed - start + n <= buf.Length && file != buf
    modifies file
    ensures forall i :: 0 <= i < file.Length ==>
              file[i] == if landed <= i < landed + n then buf[i - start] else old(file[i])
  {
    forall i | landed <= i < landed + n {
      file[i] := buf[i - start];
    }
  }

  ghost predicate Increasing(reports: seq<Report>) {
    forall i, j :: 0 <= i < j < |reports| ==> reports[i].done < reports[j].done
  }

  /** Each report is at most one block on from the one before, and the last says all that is written. */
  ghost predicate Stepwise(reports: seq<Report>, written: nat, blockSize: nat) {
    && (reports == [] <==> written == 0)
    && (reports != [] ==> reports[|reports| - 1].done == written && reports[0].done <= blockSize)
    && forall i :: 0 < i < |reports| ==> reports[i].done - reports[i - 1].done <= blockSize
  }

  /** The progress reports so far, `written` bytes into the erase. */
  ghost predicate Reported(reports: seq<Report>, written: nat, total: nat, blockSize: nat) {
    && (forall r :: r in reports ==> r.total == total % TWO64)
    && (total < TWO64 && written <= total ==>
          && Increasing(reports) && (forall r :: r in reports ==> 0 < r.done <= written)
          && Stepwise(reports, written, blockSize))
  }

  lemma {:induction false} ReportMore(reports: seq<Report>, written: nat, total: nat, blockSize: nat, chunk: nat)
    requires Reported(reports, written, total, blockSize) && 0 < chunk <= blockSize && written + chunk <= total
    ensures Reported(reports + [Report((written + chunk) % TWO64, total % TWO64)], written + chunk, total, blockSize)
  {
    hide Stepwise, Increasing;
    if total < TWO64 {
      assert (written + chunk) % TWO64 == written + chunk;
      StepMore(reports, written, blockSize, chunk, total);
      IncreasingMore(reports, written, Report(written + chunk, total));
    }
  }

  lemma {:induction false} IncreasingMore(reports: seq<Report>, written: nat, r: Report)
    requires Increasing(reports) && r.done > written && forall p :: p in reports ==> p.done <= written
    ensures Increasing(reports + [r])
  {
    forall i | 0 <= i < |reports| ensures reports[i].done < r.done {
      assert reports[i] in reports;
    }
  }

  lemma {:induction false} StepMore(reports: seq<Report>, written: nat, blockSize: nat, chunk: nat, total: nat)
    requires Stepwise(reports, written, blockSize) && 0 < chunk <= blockSize
    ensures Stepwise(reports + [Report(written + chunk, total)], written + chunk, blockSize)
  {
  }

  ghost predicate GoodRun(medium: Medium, io: Io, blockSize: nat) {
    AllWell(io) && (medium.Image? ==> WholeWrites(io, blockSize))
  }

  /** One pass: chunks until nothing remains or a call fails, then the flush. `counted` is what the
      pass adds to the byte counter; `landed` is how far its bytes reach. */
  method ErasePass(file: array<Byte>, medium: Medium, pattern: Pattern, blockSize: nat, io: Io, pass: nat,
                   written: nat, total: nat, reports: seq<Report>)
    returns (code: Code, counted: nat, landed: nat, reports': seq<Report>)
    requires file.Length > 0 && blockSize > 0 && written + file.Length <= total
    requires Reported(reports, written, total, blockSize)
    modifies file
    ensures counted <= landed <= file.Length
    ensures code == Ok ==> counted == landed == file.Length
    ensures Patched(file[..], old(file[..]), pattern, io, pass, 0, landed)
    ensures Reported(reports', written + counted, total, blockSize)
    ensures code != Ok ==>
      StopsBecause(code, medium, pattern, io, blockSize, file.Length, pass, counted, landed)
    ensures code == Ok ==> (io.starts)(pass) && (io.syncs)(pass)
    ensures GoodRun(medium, io, blockSize) ==> code == Ok
  {
    hide Patched, Reported, Written, Delivered, WriteStops, WholeWrites;
    code, counted, landed, reports' := Ok, 0, 0, reports;
    NothingPatched(file[..], pattern, io, pass);
    if !(io.starts)(pass) {
      code := if medium.Image? then OpenFailed else SeekFailed;
      return;
    }
    var buf := new Byte[blockSize];
    ghost var before := file[..];
    var remaining := file.Length;
    while remaining > 0
      invariant counted == landed == file.Length - remaining && 0 <= remaining && code == Ok
      invariant Patched(file[..], before, pattern, io, pass, 0, landed)
      invariant Reported(reports', written + counted, total, blockSize)
      decreases remaining
    {
      var chunk := if remaining < blockSize then remaining else blockSize;
      code := FillPattern(buf, chunk, pattern, io, pass, counted);
      if code != Ok {
        return;
      }
      ghost var middle := file[..];
      SmallerGoodRun(medium, io, blockSize, chunk);
      code, landed := WriteChunk(file, buf, medium, pattern, io, pass, counted, chunk);
      PatchOn(before, middle, file[..], pattern, io, pass, counted, landed);
      if code != Ok {
        return;
      }
      ReportMore(reports', written + counted, total, blockSize, chunk);
      reports' := reports' + [Report((written + counted + chunk) % TWO64, total % TWO64)];
      counted := counted + chunk;
      remaining := remaining - chunk;
    }
    if !(io.syncs)(pass) {
      code := SyncFailed;
    }
  }

  lemma {:induction false} NothingPatched(file: seq<Byte>, pattern: Pattern, io: Io, pass: nat)
    ensures Patched(file, file, pattern, io, pass, 0, 0)
  {
  }

  lemma {:induction false} PatchOn(before: seq<Byte>, middle: seq<Byte>, now: seq<Byte>, pattern: Pattern, io: Io,
        pass: nat, a: nat, b: nat)
    requires Patched(middle, before, pattern, io, pass, 0, a) && Patched(now, middle, pattern, io, pass, a, b)
    ensures Patched(now, before, pattern, io, pass, 0, b)
  {
  }

  lemma {:induction false} ProgressOn(before: seq<Byte>, middle: seq<Byte>, now: seq<Byte>, pattern: Pattern, io: Io,
        done: nat, landed: nat)
    requires Progressed(middle, before, pattern, io, done, 0) && Patched(now, middle, pattern, io, done, 0, landed)
    ensures Progressed(now, before, pattern, io, done, landed)
    ensures landed == |now| ==> Progressed(now, before, pattern, io, done + 1, 0)
    ensures |now| == |before|
  {
  }

  /** What every erase guarantees when it stops, after success or any failure: `written` bytes
      counted, `landed` bytes of the unfinished pass on the target. */
  ghost predicate Erased(now: seq<Byte>, before: seq<Byte>, pattern: Pattern, passes: nat, io: Io, r: Result,
                         reports: seq<Report>, written: nat, landed: nat)
  {
    var size := |before|;
    && r.bytesWritten == written % TWO64
    && r.passesCompleted <= passes
    && r.passesCompleted * size <= written <= (r.passesCompleted + 1) * size
    && written <= size * passes
    && (r.code == Ok <==> r.passesCompleted == passes)
    && (r.code == Ok ==> written == size * passes && landed == 0)
    && Progressed(now, before, pattern, io, r.passesCompleted, landed)
    && (size * passes < TWO64 ==>
          Increasing(reports) && forall p :: p in reports ==> 0 < p.done <= p.total && p.total == size * passes)
  }

  /** The pass loop common to images and devices. */
  method EraseTarget(file: array<Byte>, medium: Medium, pattern: Pattern, blockSize: nat, passes: nat, io: Io)
    returns (r: Result, reports: seq<Report>, ghost written: nat, ghost landed: nat)
    requires file.Length > 0 && blockSize > 0 && passes > 0
    modifies file
    ensures Erased(file[..], old(file[..]), pattern, passes, io, r, reports, written, landed)
    ensures GoodRun(medium, io, blockSize) ==> r.code == Ok
    ensures Explained(r, medium, pattern, blockSize, passes, io, file.Length, reports, written, landed)
  {
    hide Progressed, Patched, Reported, AllWell, WholeWrites, StopsBecause, Stepwise;
    StartOfErase(file[..], pattern, io, file.Length * passes, blockSize);
    var total := file.Length * passes;
    var bytes, completed, code := 0, 0, Ok;
    reports, landed := [], 0;
    ghost var before := file[..];
    var pass := 0;
    while pass < passes && code == Ok
      invariant pass <= passes && completed <= pass && (code == Ok ==> completed == pass)
      invariant completed < passes || code == Ok
      invariant completed * file.Length <= bytes <= (completed + 1) * file.Length && bytes <= total
      invariant code == Ok ==> bytes == completed * file.Length && landed == 0
      invariant Progressed(file[..], before, pattern, io, completed, landed)
      invariant Reported(reports, bytes, total, blockSize)
      invariant forall p :: 0 <= p < completed ==> (io.starts)(p) && (io.syncs)(p)
      invariant code != Ok ==>
        StopsBecause(code, medium, pattern, io, blockSize, file.Length, completed, bytes - completed * file.Length,
                     landed)
      invariant GoodRun(medium, io, blockSize) ==> code == Ok
      decreases passes - pass + (if code == Ok then 1 else 0)
    {
      ghost var middle := file[..];
      RoomForPass(file.Length, pass, passes);
      var counted, reach;
      code, counted, reach, reports := ErasePass(file, medium, pattern, blockSize, io, pass, bytes, total, reports);
      ProgressOn(before, middle, file[..], pattern, io, pass, reach);
      bytes := bytes + counted;
      landed := reach;
      if code == Ok {
        completed := completed + 1;
        landed := 0;
      }
      pass := pass + 1;
    }
    ReportsFit(reports, bytes, total, blockSize);
    written := bytes;
    r := Result(bytes % TWO64, completed, code);
  }

  /** What an erase that stopped says of the calls: which one failed, at which pass and byte; on success, that every
      pass was started and flushed; and how the progress was reported. */
  ghost predicate Explained(r: Result, medium: Medium, pattern: Pattern, blockSize: nat, passes: nat, io: Io, size: nat,
        reports: seq<Report>, written: nat, landed: nat) {
    && (r.code == Ok ==> forall p :: 0 <= p < passes ==> (io.starts)(p) && (io.syncs)(p))
    && (r.code != Ok ==>
          var start := r.passesCompleted * size;
          start <= written
          && StopsBecause(r.code, medium, pattern, io, blockSize, size, r.passesCompleted, written - start, landed))
    && (size * passes < TWO64 ==> Stepwise(reports, written, blockSize))
  }

  lemma {:induction false} StartOfErase(file: seq<Byte>, pattern: Pattern, io: Io, total: nat, blockSize: nat)
    ensures Progressed(file, file, pattern, io, 0, 0) && Reported([], 0, total, blockSize)
  {
  }

  lemma {:induction false} ReportsFit(reports: seq<Report>, written: nat, total: nat, blockSize: nat)
    requires Reported(reports, written, total, blockSize) && written <= total
    ensures total < TWO64 ==>
      && Stepwise(reports, written, blockSize) && Increasing(reports)
      && (forall p :: p in reports ==> 0 < p.done <= p.total && p.total == total)
  {
  }

  lemma {:induction false} RoomForPass(size: nat, pass: nat, passes: nat)
    requires pass < passes
    ensures pass * size + size <= size * passes
    ensures (pass + 1) * size == pass * size + size && (pass + 2) * size == pass * size + 2 * size
  {
    assert (pass + 1) * size <= passes * size;
  }

  /** `block_erase_image`: the safety and argument checks, then the passes. A request that fails a
      check leaves the target alone. */
  method EraseImage(file: array<Byte>, target: Target, pattern: Pattern, blockSize: nat, passes: nat, io: Io)
    returns (r: Result, reports: seq<Report>, ghost written: nat, ghost landed: nat)
    modifies file
    ensures target.Regular? && file.Length > 0 ==>
      && Erased(file[..], old(file[..]), pattern, ClampPasses(passes), io, r, reports, written, landed)
      && (GoodRun(Image, io, ClampBlockSize(blockSize)) ==> r.code == Ok)
      && Explained(r, Image, pattern, ClampBlockSize(blockSize), ClampPasses(passes), io, file.Length, reports,
                   written, landed)
    ensures !target.Regular? || file.Length == 0 ==>
      file[..] == old(file[..]) && r == Result(0, 0, match target
        case BlockDevice => RealDevicePath case Missing => StatFailed case _ => InvalidArg)
  {
    written, landed, reports := 0, 0, [];
    if target.BlockDevice? {
      return Result(0, 0, RealDevicePath), [], 0, 0;
    }
    if target.Missing? {
      return Result(0, 0, StatFailed), [], 0, 0;
    }
    if target.NotRegular? || file.Length == 0 {
      return Result(0, 0, InvalidArg), [], 0, 0;
    }
    r, reports, written, landed :=
        EraseTarget(file, Image, pattern, ClampBlockSize(blockSize), ClampPasses(passes), io);
  }

  function DeviceChecks(info: DeviceInfo, confirmation: string, capacity: nat): Code {
    if confirmation != info.path then Confirmation
    else if !info.isBlockDevice then NotADevice
    else if info.readOnly then DeviceReadOnly
    else if info.mounted then DeviceMounted
    else if info.opening.NotPermitted? then PermissionDenied
    else if info.opening.InUse? then DeviceBusy
    else if info.opening.NotOpened? then OpenFailed
    else if capacity == 0 then DeviceScanFail
    else Ok
  }

  /** The device may be erased: confirmed by its path, a block device, writable, not mounted, open, not empty. */
  ghost predicate Erasable(info: DeviceInfo, confirmation: string, capacity: nat) {
    && confirmation == info.path && info.isBlockDevice && !info.readOnly && !info.mounted
    && info.opening.Opened? && capacity > 0
  }

  /** The code of the first check that fails, the checks in this order. */
  ghost predicate RefusedWith(info: DeviceInfo, confirmation: string, capacity: nat, code: Code) {
    && (confirmation != info.path ==> code == Confirmation)
    && (confirmation == info.path ==>
          && (!info.isBlockDevice ==> code == NotADevice)
          && (info.isBlockDevice && info.readOnly ==> code == DeviceReadOnly)
          && (info.isBlockDevice && !info.readOnly && info.mounted ==> code == DeviceMounted)
          && (info.isBlockDevice && !info.readOnly && !info.mounted ==>
                && (info.opening.NotPermitted? ==> code == PermissionDenied)
                && (info.opening.InUse? ==> code == DeviceBusy)
                && (info.opening.NotOpened? ==> code == OpenFailed)
                && (info.opening.Opened? && capacity == 0 ==> code == DeviceScanFail)))
  }

  /** `block_erase_device`: no byte of the device changes unless every safety check passes. */
  method EraseDevice(file: array<Byte>, info: DeviceInfo, confirmation: string, pattern: Pattern, blockSize: nat,
        passes: nat, io: Io)
    returns (r: Result, reports: seq<Report>, ghost written: nat, ghost landed: nat)
    modifies file
    ensures Erasable(info, confirmation, file.Length) ==>
      && Erased(file[..], old(file[..]), pattern, ClampPasses(passes), io, r, reports, written, landed)
      && (GoodRun(Device, io, ClampBlockSize(blockSize)) ==> r.code == Ok)
      && Explained(r, Device, pattern, ClampBlockSize(blockSize), ClampPasses(passes), io, file.Length, reports,
                   written, landed)
    ensures !Erasable(info, confirmation, file.Length) ==>
      && file[..] == old(file[..]) && r.bytesWritten == r.passesCompleted == 0 && reports == []
      && RefusedWith(info, confirmation, file.Length, r.code)
  {
    var check := DeviceChecks(info, confirmation, file.Length);
    if check != Ok {
      return Result(0, 0, check), [], 0, 0;
    }
    r, reports, written, landed :=
        EraseTarget(file, Device, pattern, ClampBlockSize(blockSize), ClampPasses(passes), io);
  }

  // ---------- consequences ----------

  /** Once one pass of a constant pattern is complete, the whole target holds the fill byte, however
      many later passes there are and however the last one ends. */
  lemma {:induction false} FilledAfterOnePass(now: seq<Byte>, before: seq<Byte>, pattern: Pattern, passes: nat, io: Io,
        r: Result, reports: seq<Report>, written: nat, landed: nat)
    requires Erased(now, before, pattern, passes, io, r, reports, written, landed)
    requires pattern != Random && r.passesCompleted >= 1
    ensures forall i :: 0 <= i < |now| ==> now[i] == if pattern == Zero then 0x00 else 0xFF
  {
  }

  /** A random erase that succeeds leaves the random bytes of its last pass, nothing older. */
  lemma {:induction false} LastPassRemains(now: seq<Byte>, before: seq<Byte>, passes: nat, io: Io, r: Result,
                        reports: seq<Report>, written: nat, landed: nat)
    requires Erased(now, before, Random, passes, io, r, reports, written, landed) && r.code == Ok && passes > 0
    ensures forall i :: 0 <= i < |now| ==> now[i] == (io.noise)(passes - 1, i)
  {
  }

  /** On success the 64-bit byte counter is exact if and only if size times passes fits in it. */
  lemma {:induction false} CounterExactIffItFits(now: seq<Byte>, before: seq<Byte>, pattern: Pattern, passes: nat,
        io: Io, r: Result, reports: seq<Report>, written: nat, landed: nat)
    requires Erased(now, before, pattern, passes, io, r, reports, written, landed) && r.code == Ok
    ensures r.bytesWritten == |before| * passes <==> |before| * passes < TWO64
  {
  }

  /** Bytes not yet reached by any pass are never touched: an erase that stopped in its first pass
      keeps the old contents past the last byte that landed. */
  lemma {:induction false} UntouchedPastFailure(now: seq<Byte>, before: seq<Byte>, pattern: Pattern, passes: nat,
        io: Io, r: Result, reports: seq<Report>, written: nat, landed: nat)
    requires Erased(now, before, pattern, passes, io, r, reports, written, landed) && r.passesCompleted == 0
    ensures now[landed..] == before[landed..]
  {
  }
}
