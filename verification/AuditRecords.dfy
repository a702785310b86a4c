/**
 Audit records: the canonical string that is hashed, its injectivity, and what the hash chain binds.
 SHA-256 in hexadecimal is a parameter; nothing is assumed of it but the form of its output.
 */
module AuditRecords {
  import opened Bytes

  const SERIAL_BUFFER: nat := 4096
  const HASH_LENGTH: nat := 64

  datatype Record = Record(
    caseId: string,
    operationId: string,
    sequence: nat,
    deviceId: string,
    devicePath: string,
    deviceModel: string,
    deviceSerial: string,
    capacity: nat,
    deviceType: int,
    transport: int,
    sanitizer: int,
    pattern: int,
    passes: nat,
    appVersion: string,
    startTime: int,
    endTime: int,
    sanitization: int,
    verification: int,
    verificationPassed: bool,
    preHash: string,
    postHash: string,
    previousHash: string,
    thisHash: string,
    notes: string)

  datatype Code = Ok | Overflow

  type Sha = string -> string

  // ---------- numbers ----------

  function Digit(d: nat): char
    requires d < 10
  {
    ('0' as int + d) as char
  }

  function Decimal(n: nat): (s: string)
    ensures |s| > 0 && forall i :: 0 <= i < |s| ==> '0' <= s[i] <= '9'
  {
    if n < 10 then [Digit(n)] else Decimal(n / 10) + [Digit(n % 10)]
  }

  function Signed(i: int): string {
    if i < 0 then "-" + Decimal(-i) else Decimal(i)
  }

  lemma {:induction false} DecimalInjective(m: nat, n: nat)
    requires Decimal(m) == Decimal(n)
    ensures m == n
  {
    var s, t := Decimal(m), Decimal(n);
    assert s[|s| - 1] == Digit(m % 10) && t[|t| - 1] == Digit(n % 10);
    if m >= 10 && n >= 10 {
      assert s[..|s| - 1] == Decimal(m / 10) && t[..|t| - 1] == Decimal(n / 10);
      DecimalInjective(m / 10, n / 10);
    }
  }

  lemma {:induction false} SignShows(i: int)
    ensures Signed(i) != [] && (Signed(i)[0] == '-' <==> i < 0)
  {
  }

  lemma {:induction false} SignedInjective(i: int, j: int)
    requires Signed(i) == Signed(j)
    ensures i == j
  {
    if i < 0 && j < 0 {
      assert Signed(i)[1..] == Decimal(-i) && Signed(j)[1..] == Decimal(-j);
      DecimalInjective(-i, -j);
    } else if i >= 0 && j >= 0 {
      DecimalInjective(i, j);
    } else {
      SignShows(i);
      SignShows(j);
    }
  }

  function Power10(k: nat): nat {
    if k == 0 then 1 else 10 * Power10(k - 1)
  }

  lemma {:induction false} DecimalLength(n: nat, k: nat)
    requires k > 0 && n < Power10(k)
    ensures |Decimal(n)| <= k
  {
    if n >= 10 && k > 1 {
      DecimalLength(n / 10, k - 1);
    }
  }

  // ---------- the canonical string ----------

  const LABELS: seq<string> := [
    "case_id=", "op_id=", "seq=", "dev_path=", "model=", "serial=", "capacity=", "dev_type=", "transport=",
    "method=", "pattern=", "passes=", "start=", "end=", "sanitize_result=", "verify_result=",
    "verify_passed=", "pre_hash=", "post_hash=", "app_version=", "prev_hash="]

  function Values(r: Record): (v: seq<string>)
    ensures |v| == 21
  {
    [r.caseId, r.operationId, Decimal(r.sequence), r.devicePath, r.deviceModel, r.deviceSerial,
     Decimal(r.capacity), Signed(r.deviceType), Signed(r.transport), Signed(r.sanitizer), Signed(r.pattern),
     Decimal(r.passes), Signed(r.startTime), Signed(r.endTime), Signed(r.sanitization), Signed(r.verification),
     if r.verificationPassed then "1" else "0", r.preHash, r.postHash, r.appVersion, r.previousHash]
  }

  /** Label and value pairs with a bar between them. */
  function Render(labels: seq<string>, values: seq<string>): string
    requires |labels| == |values|
  {
    if |labels| == 0 then ""
    else if |labels| == 1 then labels[0] + values[0]
    else labels[0] + values[0] + "|" + Render(labels[1..], values[1..])
  }

  function Canonical(r: Record): string {
    Render(LABELS, Values(r))
  }

  predicate NoBar(s: string) {
    forall i :: 0 <= i < |s| ==> s[i] != '|'
  }

  /** The record with the fields that the canonical string leaves out blanked. */
  function Included(r: Record): Record {
    r.(deviceId := "", notes := "", thisHash := "")
  }

  predicate BarFree(r: Record) {
    && NoBar(r.caseId) && NoBar(r.operationId) && NoBar(r.devicePath) && NoBar(r.deviceModel)
    && NoBar(r.deviceSerial) && NoBar(r.preHash) && NoBar(r.postHash) && NoBar(r.appVersion) && NoBar(r.previousHash)
  }

  /** Up to the first bar two equal strings agree. */
  lemma {:induction false} SplitAtBar(a: string, s: string, b: string, t: string)
    requires NoBar(a) && NoBar(b) && a + "|" + s == b + "|" + t
    ensures a == b && s == t
  {
    var x, y := a + "|" + s, b + "|" + t;
    assert x[|a|] == '|' && y[|b|] == '|';
    assert a == x[..|a|] && b == y[..|b|];
    assert s == x[|a| + 1..] && t == y[|b| + 1..];
  }

  lemma {:induction false} RenderInjective(labels: seq<string>, v: seq<string>, w: seq<string>)
    requires |labels| == |v| == |w| && Render(labels, v) == Render(labels, w)
    requires forall i :: 0 <= i < |v| ==> NoBar(v[i]) && NoBar(w[i])
    ensures v == w
  {
    if |labels| == 1 {
      assert v[0] == Render(labels, v)[|labels[0]|..] && w[0] == Render(labels, w)[|labels[0]|..];
    } else if |labels| > 1 {
      var s, t := Render(labels[1..], v[1..]), Render(labels[1..], w[1..]);
      var l := labels[0];
      assert Render(labels, v) == l + (v[0] + "|" + s) && Render(labels, w) == l + (w[0] + "|" + t);
      assert v[0] + "|" + s == Render(labels, v)[|l|..] && w[0] + "|" + t == Render(labels, w)[|l|..];
      SplitAtBar(v[0], s, w[0], t);
      RenderInjective(labels[1..], v[1..], w[1..]);
      assert v == [v[0]] + v[1..] && w == [w[0]] + w[1..];
    }
  }

  lemma {:induction false} NumbersHaveNoBar(n: nat, i: int)
    ensures NoBar(Decimal(n)) && NoBar(Signed(i))
  {
  }

  lemma {:induction false} ValuesHaveNoBar(r: Record)
    requires BarFree(r)
    ensures forall i :: 0 <= i < 21 ==> NoBar(Values(r)[i])
  {
    hide Decimal, Signed, NoBar;
    NumbersHaveNoBar(r.sequence, r.deviceType);
    NumbersHaveNoBar(r.capacity, r.transport);
    NumbersHaveNoBar(r.passes, r.sanitizer);
    NumbersHaveNoBar(0, r.pattern);
    NumbersHaveNoBar(0, r.startTime);
    NumbersHaveNoBar(0, r.endTime);
    NumbersHaveNoBar(0, r.sanitization);
    NumbersHaveNoBar(0, r.verification);
    FlagHasNoBar(r.verificationPassed);
  }

  lemma {:induction false} FlagHasNoBar(b: bool)
    ensures NoBar(if b then "1" else "0")
  {
  }

  lemma {:induction false} ValuesDetermineFields(r: Record, s: Record)
    requires Values(r) == Values(s)
    ensures Included(r) == Included(s)
  {
    hide Decimal, Signed;
    var v, w := Values(r), Values(s);
    DecimalInjective(r.sequence, s.sequence) by { assert v[2] == w[2]; }
    DecimalInjective(r.capacity, s.capacity) by { assert v[6] == w[6]; }
    SignedInjective(r.deviceType, s.deviceType) by { assert v[7] == w[7]; }
    SignedInjective(r.transport, s.transport) by { assert v[8] == w[8]; }
    SignedInjective(r.sanitizer, s.sanitizer) by { assert v[9] == w[9]; }
    SignedInjective(r.pattern, s.pattern) by { assert v[10] == w[10]; }
    DecimalInjective(r.passes, s.passes) by { assert v[11] == w[11]; }
    SignedInjective(r.startTime, s.startTime) by { assert v[12] == w[12]; }
    SignedInjective(r.endTime, s.endTime) by { assert v[13] == w[13]; }
    SignedInjective(r.sanitization, s.sanitization) by { assert v[14] == w[14]; }
    SignedInjective(r.verification, s.verification) by { assert v[15] == w[15]; }
    assert v[16] == w[16];
    TextFields(r, s);
  }

  lemma {:induction false} TextFields(r: Record, s: Record)
    requires Values(r) == Values(s)
    ensures r.caseId == s.caseId && r.operationId == s.operationId && r.devicePath == s.devicePath
    ensures r.deviceModel == s.deviceModel && r.deviceSerial == s.deviceSerial && r.appVersion == s.appVersion
    ensures r.preHash == s.preHash && r.postHash == s.postHash && r.previousHash == s.previousHash
    ensures r.verificationPassed == s.verificationPassed
  {
    hide Decimal, Signed;
    var v, w := Values(r), Values(s);
    assert v[0] == w[0] && v[1] == w[1] && v[3] == w[3] && v[4] == w[4] && v[5] == w[5];
    assert v[16] == w[16] && v[17] == w[17] && v[18] == w[18] && v[19] == w[19] && v[20] == w[20];
    assert "1"[0] != "0"[0];
  }

  /** Without bars in the text fields, the canonical string says exactly the included fields. */
  lemma {:induction false} CanonicalInjective(r: Record, s: Record)
    requires BarFree(r) && BarFree(s)
    ensures Canonical(r) == Canonical(s) <==> Included(r) == Included(s)
  {
    hide Decimal, Signed, Render;
    if Canonical(r) == Canonical(s) {
      ValuesHaveNoBar(r);
      ValuesHaveNoBar(s);
      RenderInjective(LABELS, Values(r), Values(s));
      ValuesDetermineFields(r, s);
    }
    if Included(r) == Included(s) {
      assert Values(r) == Values(s);
    }
  }

  /** The parts of a text between its bars. */
  function SplitBars(s: string): (parts: seq<string>)
    ensures parts != []
  {
    if s == "" then [""]
    else if s[0] == '|' then [""] + SplitBars(s[1..])
    else
      var rest := SplitBars(s[1..]);
      [[s[0]] + rest[0]] + rest[1..]
  }

  lemma {:induction false} SplitPart(a: string, rest: string)
    requires NoBar(a)
    ensures SplitBars(a) == [a] && SplitBars(a + "|" + rest) == [a] + SplitBars(rest)
  {
    var s := a + "|" + rest;
    if a == "" {
      assert s == "|" + rest && s[1..] == rest;
    } else {
      assert s[1..] == a[1..] + "|" + rest;
      SplitPart(a[1..], rest);
      assert [a[0]] + a[1..] == a;
    }
  }

  /** Each label with its value. */
  function Labelled(labels: seq<string>, values: seq<string>): (parts: seq<string>)
    requires |labels| == |values|
    ensures |parts| == |labels| && forall i :: 0 <= i < |labels| ==> parts[i] == labels[i] + values[i]
  {
    seq(|labels|, i requires 0 <= i < |labels| => labels[i] + values[i])
  }

  lemma {:induction false} RenderSplits(labels: seq<string>, values: seq<string>)
    requires |labels| == |values| > 0 && forall i :: 0 <= i < |labels| ==> NoBar(labels[i]) && NoBar(values[i])
    ensures SplitBars(Render(labels, values)) == Labelled(labels, values)
    decreases |labels|
  {
    hide NoBar, SplitBars;
    NoBarTogether(labels[0], values[0]);
    if |labels| == 1 {
      SplitPart(labels[0] + values[0], "");
    } else {
      RenderSplits(labels[1..], values[1..]);
      SplitPart(labels[0] + values[0], Render(labels[1..], values[1..]));
      assert Labelled(labels, values) == [labels[0] + values[0]] + Labelled(labels[1..], values[1..]);
    }
  }

  lemma {:induction false} NoBarTogether(a: string, b: string)
    requires NoBar(a) && NoBar(b)
    ensures NoBar(a + b)
  {
  }

  lemma {:induction false} LabelsHaveNoBar()
    ensures |LABELS| == 21 && forall i :: 0 <= i < 21 ==> NoBar(LABELS[i])
  {
    assert forall i :: 0 <= i < 7 ==> NoBar(LABELS[i]);
    assert forall i :: 7 <= i < 14 ==> NoBar(LABELS[i]);
    assert forall i :: 14 <= i < 21 ==> NoBar(LABELS[i]);
  }

  /** The parts of the canonical string of a record without bars in its texts are its 21 fields, in this order,
      each behind its name. */
  lemma {:induction false} CanonicalParts(r: Record)
    requires BarFree(r)
    ensures var p := SplitBars(Canonical(r));
      && |p| == 21
      && p[0] == "case_id=" + r.caseId && p[1] == "op_id=" + r.operationId && p[2] == "seq=" + Decimal(r.sequence)
      && p[3] == "dev_path=" + r.devicePath && p[4] == "model=" + r.deviceModel
      && p[5] == "serial=" + r.deviceSerial && p[6] == "capacity=" + Decimal(r.capacity)
      && p[7] == "dev_type=" + Signed(r.deviceType) && p[8] == "transport=" + Signed(r.transport)
      && p[9] == "method=" + Signed(r.sanitizer) && p[10] == "pattern=" + Signed(r.pattern)
      && p[11] == "passes=" + Decimal(r.passes) && p[12] == "start=" + Signed(r.startTime)
      && p[13] == "end=" + Signed(r.endTime) && p[14] == "sanitize_result=" + Signed(r.sanitization)
      && p[15] == "verify_result=" + Signed(r.verification)
      && p[16] == (if r.verificationPassed then "verify_passed=1" else "verify_passed=0")
      && p[17] == "pre_hash=" + r.preHash && p[18] == "post_hash=" + r.postHash
      && p[19] == "app_version=" + r.appVersion && p[20] == "prev_hash=" + r.previousHash
  {
    hide Values, Render, Decimal, Signed, NoBar, SplitBars, LABELS;
    LabelsHaveNoBar();
    ValuesHaveNoBar(r);
    RenderSplits(LABELS, Values(r));
    FirstParts(r);
    MiddleParts(r);
    LastParts(r);
    VerdictPart(r.verificationPassed);
  }

  lemma {:induction false} FirstParts(r: Record)
    ensures |LABELS| == 21
    ensures LABELS[0] == "case_id=" && LABELS[1] == "op_id=" && LABELS[2] == "seq=" && LABELS[3] == "dev_path="
    ensures LABELS[4] == "model=" && LABELS[5] == "serial=" && LABELS[6] == "capacity="
    ensures var v := Values(r);
      v[..7] == [r.caseId, r.operationId, Decimal(r.sequence), r.devicePath, r.deviceModel, r.deviceSerial,
                 Decimal(r.capacity)]
  {
    hide Decimal, Signed;
  }

  lemma {:induction false} MiddleParts(r: Record)
    ensures |LABELS| == 21
    ensures LABELS[7] == "dev_type=" && LABELS[8] == "transport=" && LABELS[9] == "method=" && LABELS[10] == "pattern="
    ensures LABELS[11] == "passes=" && LABELS[12] == "start=" && LABELS[13] == "end="
    ensures var v := Values(r);
      v[7..14] == [Signed(r.deviceType), Signed(r.transport), Signed(r.sanitizer), Signed(r.pattern),
                   Decimal(r.passes), Signed(r.startTime), Signed(r.endTime)]
  {
    hide Decimal, Signed;
  }

  lemma {:induction false} LastParts(r: Record)
    ensures |LABELS| == 21
    ensures LABELS[14] == "sanitize_result=" && LABELS[15] == "verify_result=" && LABELS[16] == "verify_passed="
    ensures LABELS[17] == "pre_hash=" && LABELS[18] == "post_hash=" && LABELS[19] == "app_version="
    ensures LABELS[20] == "prev_hash="
    ensures var v := Values(r);
      v[14..] == [Signed(r.sanitization), Signed(r.verification), if r.verificationPassed then "1" else "0",
                  r.preHash, r.postHash, r.appVersion, r.previousHash]
  {
    hide Decimal, Signed;
  }

  lemma {:induction false} VerdictPart(b: bool)
    ensures "verify_passed=" + (if b then "1" else "0") == if b then "verify_passed=1" else "verify_passed=0"
  {
  }

  // ---------- which texts are ambiguous ----------

  function Joined(x: string, sep: string, y: string): string {
    x + sep + y
  }

  ghost predicate OccursAt(s: string, key: string, i: int) {
    0 <= i && i + |key| <= |s| && s[i..i + |key|] == key
  }

  ghost predicate Occurs(s: string, key: string) {
    exists i :: OccursAt(s, key, i)
  }

  /** A bar and then a label: it cannot overlap itself. */
  ghost predicate Separator(sep: string) {
    sep != "" && sep[0] == '|' && NoBar(sep[1..])
  }

  lemma {:induction false} JoinedAt(x: string, sep: string, y: string)
    ensures var s := Joined(x, sep, y);
      && |s| == |x| + |sep| + |y| && s[..|x|] == x && s[|x|..|x| + |sep|] == sep && s[|x| + |sep|..] == y
  {
  }

  /** Two places where the separator stands are at least its length apart. */
  lemma {:induction false} SeparatorsApart(s: string, sep: string, i: int, j: int)
    requires Separator(sep) && OccursAt(s, sep, i) && OccursAt(s, sep, j) && i < j
    ensures i + |sep| <= j
  {
    SeparatorChars(s, sep, i);
    SeparatorChars(s, sep, j);
  }

  lemma {:induction false} SeparatorChars(s: string, sep: string, i: int)
    requires Separator(sep) && OccursAt(s, sep, i)
    ensures s[i] == '|' && forall k :: i < k < i + |sep| ==> s[k] != '|'
  {
    assert s[i] == s[i..i + |sep|][0];
    forall k | i < k < i + |sep| ensures s[k] != '|' {
      assert s[k] == s[i..i + |sep|][k - i] == sep[1..][k - i - 1];
    }
  }

  /** Another split of the joined text is at a separator inside one of the two parts. */
  lemma {:induction false} OtherSplit(x: string, y: string, sep: string, x': string, y': string)
    requires Separator(sep) && Joined(x', sep, y') == Joined(x, sep, y) && (x' != x || y' != y)
    ensures |x'| != |x| && |x'| + |y'| == |x| + |y|
    ensures |x'| < |x| ==> OccursAt(x, sep, |x'|)
    ensures |x'| > |x| ==> OccursAt(y, sep, |x'| - |x| - |sep|)
  {
    var s := Joined(x, sep, y);
    JoinedAt(x, sep, y);
    JoinedAt(x', sep, y');
    assert OccursAt(s, sep, |x|) && OccursAt(s, sep, |x'|);
    if |x'| < |x| {
      SeparatorsApart(s, sep, |x'|, |x|);
      assert x[|x'|..|x'| + |sep|] == s[|x'|..|x'| + |sep|];
    } else if |x'| > |x| {
      SeparatorsApart(s, sep, |x|, |x'|);
      var i := |x'| - |x| - |sep|;
      assert y[i..i + |sep|] == s[|x'|..|x'| + |sep|];
    }
  }

  lemma {:induction false} SplitInFirst(x: string, y: string, sep: string, i: nat) returns (x': string, y': string)
    requires sep != "" && OccursAt(x, sep, i)
    ensures Joined(x', sep, y') == Joined(x, sep, y) && |x'| == i < |x| && |y'| == |x| - i + |y|
  {
    x', y' := x[..i], x[i + |sep|..] + sep + y;
    assert x == x[..i] + sep + x[i + |sep|..];
  }

  lemma {:induction false} SplitInSecond(x: string, y: string, sep: string, i: nat) returns (x': string, y': string)
    requires sep != "" && OccursAt(y, sep, i)
    ensures Joined(x', sep, y') == Joined(x, sep, y) && |x'| == |x| + |sep| + i && |y'| == |y| - i - |sep|
  {
    x', y' := x + sep + y[..i], y[i + |sep|..];
    assert y == y[..i] + sep + y[i + |sep|..];
  }

  /** The joined text says what its parts are, among parts below the lengths `lx` and `ly`. */
  ghost predicate SplitsOnce(x: string, y: string, sep: string, lx: nat, ly: nat) {
    forall x', y' :: |x'| < lx && |y'| < ly && Joined(x', sep, y') == Joined(x, sep, y) ==> x' == x && y' == y
  }

  /** No separator in a part where the text past it, moved to the other part, still fits there. */
  ghost predicate NothingToMove(x: string, y: string, sep: string, lx: nat, ly: nat) {
    && (forall i :: OccursAt(x, sep, i) ==> |x| - i + |y| >= ly)
    && (forall i :: OccursAt(y, sep, i) ==> |x| + |sep| + i >= lx)
  }

  lemma {:induction false} SplitsOnceIff(x: string, y: string, sep: string, lx: nat, ly: nat)
    requires Separator(sep) && |x| < lx && |y| < ly
    ensures SplitsOnce(x, y, sep, lx, ly) <==> NothingToMove(x, y, sep, lx, ly)
  {
    hide Joined, Separator;
    if NothingToMove(x, y, sep, lx, ly) {
      forall x', y' | |x'| < lx && |y'| < ly && Joined(x', sep, y') == Joined(x, sep, y)
        ensures x' == x && y' == y
      {
        if x' != x || y' != y {
          OtherSplit(x, y, sep, x', y');
        }
      }
    } else {
      SomethingToMove(x, y, sep, lx, ly);
    }
  }

  lemma {:induction false} SomethingToMove(x: string, y: string, sep: string, lx: nat, ly: nat)
    requires Separator(sep) && |x| < lx && |y| < ly && !NothingToMove(x, y, sep, lx, ly)
    ensures !SplitsOnce(x, y, sep, lx, ly)
  {
    hide Joined;
    if i: int :| OccursAt(x, sep, i) && |x| - i + |y| < ly {
      var x', y' := SplitInFirst(x, y, sep, i);
      assert x' != x;
    } else {
      var i: int :| OccursAt(y, sep, i) && |x| + |sep| + i < lx;
      var x', y' := SplitInSecond(x, y, sep, i);
      assert x' != x;
    }
  }

  /** Two value lists that differ in two neighbours only. */
  ghost predicate DifferAt(v: seq<string>, w: seq<string>, k: nat) {
    |v| == |w| && k + 1 < |v| && forall i :: 0 <= i < |v| && i != k && i != k + 1 ==> v[i] == w[i]
  }

  /** Cutting equal ends off two texts. */
  lemma {:induction false} CutEnds(a: string, x: string, y: string, b: string)
    ensures a + x + b == a + y + b <==> x == y
  {
    var s, t := a + x + b, a + y + b;
    if s == t {
      assert |x| == |y|;
      assert x == s[|a|..|a| + |x|] && y == t[|a|..|a| + |y|];
    }
  }

  /** What is rendered from the second of two neighbours on. */
  function RenderTail(labels: seq<string>, values: seq<string>): string
    requires |labels| == |values| >= 2
  {
    if |labels| == 2 then "" else "|" + Render(labels[2..], values[2..])
  }

  lemma {:induction false} RenderTwo(labels: seq<string>, v: seq<string>)
    requires |labels| == |v| >= 2
    ensures Render(labels, v) == labels[0] + Joined(v[0], "|" + labels[1], v[1]) + RenderTail(labels, v)
  {
    assert labels[1..][1..] == labels[2..] && v[1..][1..] == v[2..];
    var second := labels[1] + v[1] + RenderTail(labels, v);
    assert Render(labels[1..], v[1..]) == second;
    assert labels[0] + v[0] + "|" + second == labels[0] + (v[0] + ("|" + labels[1]) + v[1]) + RenderTail(labels, v);
  }

  /** Of two renderings that differ in two neighbouring values only, the joined neighbours decide. */
  lemma {:induction false} RenderPair(labels: seq<string>, v: seq<string>, w: seq<string>, k: nat)
    requires |labels| == |v| && DifferAt(v, w, k)
    ensures Render(labels, v) == Render(labels, w)
       <==> Joined(v[k], "|" + labels[k + 1], v[k + 1]) == Joined(w[k], "|" + labels[k + 1], w[k + 1])
    decreases k
  {
    hide Joined;
    if k == 0 {
      assert v[2..] == w[2..];
      RenderTwo(labels, v);
      RenderTwo(labels, w);
      CutEnds(labels[0], Joined(v[0], "|" + labels[1], v[1]), Joined(w[0], "|" + labels[1], w[1]),
          RenderTail(labels, v));
    } else {
      RenderPair(labels[1..], v[1..], w[1..], k - 1);
      var a := labels[0] + v[0] + "|";
      CutFront(a, Render(labels[1..], v[1..]), Render(labels[1..], w[1..]));
    }
  }

  lemma {:induction false} CutFront(a: string, x: string, y: string)
    ensures a + x == a + y <==> x == y
  {
    assert x == (a + x)[|a|..] && y == (a + y)[|a|..];
  }

  /** The places in the canonical string where two text fields are neighbours: case and operation id, path and
      model, model and serial number, the hashes before and after, the latter and the version, the version and
      the previous hash. */
  predicate TextPair(k: nat) {
    k == 0 || k == 3 || k == 4 || k == 17 || k == 18 || k == 19
  }

  /** The record with other texts in the two fields. */
  function WithPair(r: Record, k: nat, x: string, y: string): Record
    requires TextPair(k)
  {
    if k == 0 then r.(caseId := x, operationId := y)
    else if k == 3 then r.(devicePath := x, deviceModel := y)
    else if k == 4 then r.(deviceModel := x, deviceSerial := y)
    else if k == 17 then r.(preHash := x, postHash := y)
    else if k == 18 then r.(postHash := x, appVersion := y)
    else r.(appVersion := x, previousHash := y)
  }

  function First(r: Record, k: nat): string
    requires TextPair(k)
  {
    Values(r)[k]
  }

  function Second(r: Record, k: nat): string
    requires TextPair(k)
  {
    Values(r)[k + 1]
  }

  /** What stands between the two texts. */
  function SepAt(k: nat): string
    requires TextPair(k)
  {
    "|" + LABELS[k + 1]
  }

  lemma {:induction false} SepIsSeparator(k: nat)
    requires TextPair(k)
    ensures Separator(SepAt(k))
  {
    assert SepAt(k)[1..] == LABELS[k + 1];
  }

  lemma {:induction false} ValuesOfPair(r: Record, k: nat, x: string, y: string)
    requires TextPair(k)
    ensures Values(WithPair(r, k, x, y)) == Values(r)[k := x][k + 1 := y]
  {
    hide Values, WithPair;
    if k < 17 {
      ValuesOfEarlyPair(r, k, x, y);
    } else {
      ValuesOfLatePair(r, k, x, y);
    }
  }

  lemma {:induction false} ValuesOfEarlyPair(r: Record, k: nat, x: string, y: string)
    requires TextPair(k) && k < 17
    ensures Values(WithPair(r, k, x, y)) == Values(r)[k := x][k + 1 := y]
  {
    hide Decimal, Signed;
  }

  lemma {:induction false} ValuesOfLatePair(r: Record, k: nat, x: string, y: string)
    requires TextPair(k) && k >= 17
    ensures Values(WithPair(r, k, x, y)) == Values(r)[k := x][k + 1 := y]
  {
    hide Decimal, Signed;
  }

  lemma {:induction false} LabelsCount()
    ensures |LABELS| == 21
  {
  }

  lemma {:induction false} PairTwice(r: Record, k: nat, a: string, b: string, x: string, y: string)
    requires TextPair(k)
    ensures WithPair(WithPair(r, k, a, b), k, x, y) == WithPair(r, k, x, y)
  {
  }

  lemma {:induction false} PairThere(r: Record, k: nat, x: string, y: string)
    requires TextPair(k)
    ensures First(WithPair(r, k, x, y), k) == x && Second(WithPair(r, k, x, y), k) == y
  {
    hide Values, WithPair;
    ValuesOfPair(r, k, x, y);
  }

  /** Other texts in the two fields give the same canonical string exactly when the joined texts agree. */
  lemma {:induction false} CanonicalOfPair(r: Record, k: nat, x: string, y: string)
    requires TextPair(k)
    ensures Canonical(WithPair(r, k, x, y)) == Canonical(r)
       <==> Joined(x, SepAt(k), y) == Joined(First(r, k), SepAt(k), Second(r, k))
  {
    hide Values, Render, Joined, WithPair, LABELS;
    ValuesOfPair(r, k, x, y);
    LabelsCount();
    RenderPair(LABELS, Values(WithPair(r, k, x, y)), Values(r), k);
  }

  /** Among records that differ in the two fields only, with texts below these lengths. */
  ghost predicate PairDetermined(r: Record, k: nat, lx: nat, ly: nat)
    requires TextPair(k)
  {
    forall x, y :: |x| < lx && |y| < ly && Canonical(WithPair(r, k, x, y)) == Canonical(r)
      ==> x == First(r, k) && y == Second(r, k)
  }

  /** The canonical string determines two neighbouring texts if and only if no text past a bar and the second
      field's label, inside one of them, can move to the other and fit. */
  lemma {:induction false} PairDeterminedIff(r: Record, k: nat, lx: nat, ly: nat)
    requires TextPair(k) && |First(r, k)| < lx && |Second(r, k)| < ly
    ensures PairDetermined(r, k, lx, ly) <==> NothingToMove(First(r, k), Second(r, k), SepAt(k), lx, ly)
  {
    hide Canonical, NothingToMove, Joined, WithPair, First, Second, SepAt, TextPair, Separator;
    SepIsSeparator(k);
    SplitsOnceIff(First(r, k), Second(r, k), SepAt(k), lx, ly);
    forall x, y
      ensures Canonical(WithPair(r, k, x, y)) == Canonical(r)
         <==> Joined(x, SepAt(k), y) == Joined(First(r, k), SepAt(k), Second(r, k))
    {
      CanonicalOfPair(r, k, x, y);
    }
  }

  /** With no bound on the texts: if and only if neither contains a bar and the second field's label. */
  lemma {:induction false} PairDeterminedIffNoLabel(r: Record, k: nat)
    requires TextPair(k)
    ensures (forall limit: nat :: PairDetermined(r, k, limit, limit))
        <==> !Occurs(First(r, k), SepAt(k)) && !Occurs(Second(r, k), SepAt(k))
  {
    hide PairDetermined, First, Second, SepAt, TextPair, Occurs, NothingToMove;
    var x, y, sep := First(r, k), Second(r, k), SepAt(k);
    var big := |x| + |y| + |sep| + 1;
    PairDeterminedIff(r, k, big, big);
    NoLabelWithin(x, y, sep, big);
    if !Occurs(x, sep) && !Occurs(y, sep) {
      forall limit: nat ensures PairDetermined(r, k, limit, limit) {
        var bigger := limit + big;
        PairDeterminedIff(r, k, bigger, bigger);
        NoLabelWithin(x, y, sep, bigger);
        PairDeterminedBelow(r, k, limit, bigger);
      }
    }
  }

  lemma {:induction false} PairDeterminedBelow(r: Record, k: nat, limit: nat, bigger: nat)
    requires TextPair(k) && limit <= bigger && PairDetermined(r, k, bigger, bigger)
    ensures PairDetermined(r, k, limit, limit)
  {
    hide Canonical, WithPair, First, Second, TextPair;
  }

  lemma {:induction false} NoLabelWithin(x: string, y: string, sep: string, limit: nat)
    requires limit > |x| + |y| + |sep|
    ensures NothingToMove(x, y, sep, limit, limit) <==> !Occurs(x, sep) && !Occurs(y, sep)
  {
    if NothingToMove(x, y, sep, limit, limit) {
      if i :| OccursAt(x, sep, i) {
        assert false;
      }
      if i :| OccursAt(y, sep, i) {
        assert false;
      }
    }
  }

  /** A case: text moves between two neighbouring fields unseen by the hash. */
  lemma {:induction false} BarsConfuseFields(r: Record, k: nat, x: string, y: string, z: string)
    requires TextPair(k)
    ensures Canonical(WithPair(r, k, x + SepAt(k) + y, z)) == Canonical(WithPair(r, k, x, y + SepAt(k) + z))
  {
    hide Canonical, SepAt, WithPair, TextPair, First, Second;
    var s := WithPair(r, k, x, y + SepAt(k) + z);
    CanonicalOfPair(s, k, x + SepAt(k) + y, z);
    PairTwice(r, k, x, y + SepAt(k) + z, x + SepAt(k) + y, z);
    PairThere(r, k, x, y + SepAt(k) + z);
    assert Joined(x + SepAt(k) + y, SepAt(k), z) == Joined(x, SepAt(k), y + SepAt(k) + z);
  }

  // ---------- the serialisation buffer is large enough ----------

  /** The record as its C structure can hold it. */
  ghost predicate InBounds(r: Record) {
    && |r.caseId| < 64 && |r.operationId| < 64 && |r.deviceId| < 256 && |r.devicePath| < 256
    && |r.deviceModel| < 64 && |r.deviceSerial| < 64 && |r.appVersion| < 32
    && |r.preHash| <= 64 && |r.postHash| <= 64 && |r.previousHash| <= 64 && |r.thisHash| <= 64 && |r.notes| < 512
    && r.sequence < TWO64 && r.capacity < TWO64 && r.passes < TWO32
    && Int32(r.deviceType) && Int32(r.transport) && Int32(r.sanitizer) && Int32(r.pattern)
    && Int32(r.sanitization) && Int32(r.verification) && Int64(r.startTime) && Int64(r.endTime)
  }

  predicate Int32(i: int) { -0x8000_0000 <= i < 0x8000_0000 }
  predicate Int64(i: int) { -0x8000_0000_0000_0000 <= i < 0x8000_0000_0000_0000 }

  lemma {:induction false} NumbersAreShort(n: nat, i: int)
    requires n < TWO64 && Int64(i)
    ensures |Decimal(n)| <= 20 && |Signed(i)| <= 21
  {
    assert Power10(4) == 1_0000;
    assert Power10(8) == 1_0000_0000 by { assert Power10(8) == 10 * (10 * (10 * (10 * Power10(4)))); }
    assert Power10(12) == 1_0000_0000_0000 by { assert Power10(12) == 10 * (10 * (10 * (10 * Power10(8)))); }
    assert Power10(16) == 1_0000_0000_0000_0000 by { assert Power10(16) == 10 * (10 * (10 * (10 * Power10(12)))); }
    assert Power10(20) == 1_0000_0000_0000_0000_0000 by { assert Power10(20) == 10 * (10 * (10 * (10 * Power10(16)))); }
    DecimalLength(n, 20);
    DecimalLength(if i < 0 then -i else i, 20);
  }

  /** One value may be as long as a path, the others no longer than a hash. */
  lemma {:induction false} RenderLength(labels: seq<string>, v: seq<string>, long: int)
    requires |labels| == |v|
    requires forall i :: 0 <= i < |v| ==> |labels[i]| <= 16 && |v[i]| <= if i == long then 255 else 64
    ensures |Render(labels, v)| <= 81 * |v| + (if 0 <= long < |v| then 191 else 0)
  {
    if |v| > 1 {
      RenderLength(labels[1..], v[1..], long - 1);
    }
  }

  lemma {:induction false} ShortValues(r: Record)
    requires InBounds(r)
    ensures forall i :: 0 <= i < 21 ==> |Values(r)[i]| <= if i == 3 then 255 else 64
  {
    hide Decimal, Signed;
    NumbersAreShort(r.sequence, r.deviceType);
    NumbersAreShort(r.capacity, r.transport);
    NumbersAreShort(r.passes, r.sanitizer);
    NumbersAreShort(0, r.pattern);
    NumbersAreShort(0, r.startTime);
    NumbersAreShort(0, r.endTime);
    NumbersAreShort(0, r.sanitization);
    NumbersAreShort(0, r.verification);
  }

  /** The overflow exit of `audit_record_finalize` is dead code: every record fits the buffer. */
  lemma {:induction false} CanonicalFits(r: Record)
    requires InBounds(r)
    ensures |Canonical(r)| < SERIAL_BUFFER
  {
    ShortValues(r);
    hide Decimal, Signed, Render;
    RenderLength(LABELS, Values(r), 3);
  }

  // ---------- finalisation ----------

  function Fit(s: string): string {
    if |s| <= HASH_LENGTH then s else s[..HASH_LENGTH]
  }

  function Finalized(r: Record, previous: string, sha: Sha): (Code, Record) {
    var linked := r.(previousHash := Fit(previous));
    if |Canonical(linked)| >= SERIAL_BUFFER then (Overflow, linked)
    else (Ok, linked.(thisHash := sha(Canonical(linked))))
  }

  /** The caller's record, which finalisation completes in place. */
  class AuditRecord {
    var fields: Record

    constructor (fields: Record)
      ensures this.fields == fields
    {
      this.fields := fields;
    }

    method Finalize(previous: string, sha: Sha) returns (code: Code)
      modifies this
      ensures (code, fields) == Finalized(old(fields), previous, sha)
      ensures fields.previousHash == if |previous| <= 64 then previous else previous[..64]
      ensures fields == old(fields).(previousHash := fields.previousHash, thisHash := fields.thisHash)
      ensures code == if |Canonical(fields.(thisHash := old(fields).thisHash))| >= 4096 then Overflow else Ok
      ensures InBounds(old(fields)) ==> code == Ok && fields.thisHash == sha(Canonical(fields))
    {
      if previous != "" {
        fields := fields.(previousHash := Fit(previous));
      } else {
        fields := fields.(previousHash := "");
      }
      if InBounds(old(fields)) {
        LinkKeepsBounds(old(fields), previous);
        CanonicalFits(fields);
      }
      var serial := Canonical(fields);
      if |serial| >= SERIAL_BUFFER {
        return Overflow;
      }
      fields := fields.(thisHash := sha(serial));
      return Ok;
    }
  }

  lemma {:induction false} LinkKeepsBounds(r: Record, previous: string)
    requires InBounds(r)
    ensures InBounds(r.(previousHash := Fit(previous)))
  {
  }

  // ---------- the chain ----------

  /** 64 characters, none of them a bar. */
  ghost predicate HexForm(sha: Sha) {
    forall s :: |sha(s)| == HASH_LENGTH && NoBar(sha(s))
  }

  function HashBefore(rs: seq<Record>, i: nat): string
    requires i <= |rs|
  {
    if i == 0 then "" else rs[i - 1].thisHash
  }

  ghost predicate Sealed(r: Record, previous: string, sha: Sha) {
    r.thisHash == sha(Canonical(r)) && r.previousHash == previous
  }

  /** Each record hashes its canonical string and names the hash of the record before it. */
  ghost predicate Chain(rs: seq<Record>, sha: Sha) {
    forall i :: 0 <= i < |rs| ==> Sealed(rs[i], HashBefore(rs, i), sha)
  }

  lemma {:induction false} ChainPrefix(rs: seq<Record>, sha: Sha)
    requires Chain(rs, sha) && rs != []
    ensures Chain(rs[..|rs| - 1], sha)
  {
    hide Sealed;
    var t := rs[..|rs| - 1];
    forall i | 0 <= i < |t|
      ensures Sealed(t[i], HashBefore(t, i), sha)
    {
      assert Sealed(rs[i], HashBefore(rs, i), sha);
    }
  }

  /** The same record but for the two hash fields. */
  ghost predicate SameButHashes(r: Record, s: Record) {
    s == r.(previousHash := s.previousHash, thisHash := s.thisHash)
  }

  lemma {:induction false} SealedByFinalize(r: Record, previous: string, sha: Sha) returns (next: Record)
    requires InBounds(r) && |previous| <= HASH_LENGTH
    ensures Finalized(r, previous, sha) == (Ok, next) && Sealed(next, previous, sha)
    ensures SameButHashes(r, next)
  {
    hide Render, Values;
    var linked := r.(previousHash := previous);
    CanonicalFits(linked);
    next := linked.(thisHash := sha(Canonical(linked)));
    SameCanonical(linked, next);
  }

  /** Finalising a next record with the last hash extends the chain. */
  lemma {:induction false} FinalizeExtends(rs: seq<Record>, r: Record, sha: Sha)
    requires Chain(rs, sha) && HexForm(sha) && InBounds(r)
    ensures var (code, next) := Finalized(r, HashBefore(rs, |rs|), sha);
      code == Ok && Chain(rs + [next], sha) && SameButHashes(r, next)
  {
    hide *;
    HashBeforeForm(rs, |rs|, sha);
    var next := SealedByFinalize(r, HashBefore(rs, |rs|), sha);
    ChainSnoc(rs, next, sha);
  }

  lemma {:induction false} ChainSnoc(rs: seq<Record>, next: Record, sha: Sha)
    requires Chain(rs, sha) && Sealed(next, HashBefore(rs, |rs|), sha)
    ensures Chain(rs + [next], sha)
  {
    hide Sealed, HashBefore;
    var t := rs + [next];
    forall i | 0 <= i < |t|
      ensures Sealed(t[i], HashBefore(t, i), sha)
    {
      SameHashBefore(rs, next, i);
      if i < |rs| {
        assert Sealed(rs[i], HashBefore(rs, i), sha);
      }
    }
  }

  lemma {:induction false} SameHashBefore(rs: seq<Record>, next: Record, i: nat)
    requires i <= |rs|
    ensures HashBefore(rs + [next], i) == HashBefore(rs, i)
  {
  }

  /** Any records can be finalised one after the other into a chain. */
  lemma {:induction false} AnyRecordsChain(rs: seq<Record>, sha: Sha) returns (chain: seq<Record>)
    requires HexForm(sha) && forall i :: 0 <= i < |rs| ==> InBounds(rs[i])
    ensures Chain(chain, sha) && |chain| == |rs|
    ensures forall i :: 0 <= i < |rs| ==> SameButHashes(rs[i], chain[i])
  {
    hide *;
    if rs == [] {
      chain := [];
      NoRecords(sha);
    } else {
      var last := |rs| - 1;
      var before := AnyRecordsChain(rs[..last], sha);
      FinalizeExtends(before, rs[last], sha);
      var next := Finalized(rs[last], HashBefore(before, |before|), sha).1;
      chain := before + [next];
      forall i | 0 <= i < |rs| ensures SameButHashes(rs[i], chain[i]) {
        if i < last {
          assert rs[i] == rs[..last][i] && chain[i] == before[i];
        }
      }
    }
  }

  lemma {:induction false} NoRecords(sha: Sha)
    ensures Chain([], sha)
  {
  }

  lemma {:induction false} SameCanonical(r: Record, s: Record)
    requires Included(r) == Included(s)
    ensures Canonical(r) == Canonical(s)
  {
    assert Values(r) == Values(s);
  }

  ghost predicate Agree(a: seq<Record>, b: seq<Record>) {
    |a| == |b| && forall i :: 0 <= i < |a| ==> Included(a[i]) == Included(b[i])
  }

  /** Two different canonical strings of the chains with one hash. */
  ghost predicate Collision(a: seq<Record>, b: seq<Record>, sha: Sha, i: nat, j: nat) {
    i < |a| && j < |b| && Canonical(a[i]) != Canonical(b[j]) && sha(Canonical(a[i])) == sha(Canonical(b[j]))
  }

  /** Equal hashes of two sealed records: a collision, or the same fields and the same predecessor. */
  lemma {:induction false} HashBindsRecord(r: Record, s: Record, p: string, q: string, sha: Sha)
    requires Sealed(r, p, sha) && Sealed(s, q, sha) && BarFree(r) && BarFree(s) && r.thisHash == s.thisHash
    ensures sha(Canonical(r)) == sha(Canonical(s))
    ensures Canonical(r) != Canonical(s) || (Included(r) == Included(s) && p == q)
  {
    CanonicalInjective(r, s);
    hide Canonical;
    assert Included(r) == Included(s) ==> Included(r).previousHash == Included(s).previousHash;
  }

  /** The hash before a record tells whether it is the first. */
  lemma {:induction false} HashBeforeForm(rs: seq<Record>, i: nat, sha: Sha)
    requires Chain(rs, sha) && HexForm(sha) && i <= |rs|
    ensures |HashBefore(rs, i)| == if i == 0 then 0 else HASH_LENGTH
  {
    assert i > 0 ==> Sealed(rs[i - 1], HashBefore(rs, i - 1), sha);
  }

  /** The last hash binds the whole history: two chains with the same last hash agree, in length and in
      every included field of every record, or they exhibit a collision of the hash function. */
  lemma {:induction false} LastHashBindsChain(a: seq<Record>, b: seq<Record>, sha: Sha) returns (i: nat, j: nat)
    requires Chain(a, sha) && Chain(b, sha) && HexForm(sha) && a != [] && b != []
    requires forall k :: 0 <= k < |a| ==> BarFree(a[k])
    requires forall k :: 0 <= k < |b| ==> BarFree(b[k])
    requires a[|a| - 1].thisHash == b[|b| - 1].thisHash
    ensures Agree(a, b) || Collision(a, b, sha, i, j)
    decreases |a|
  {
    hide *;
    i, j := |a| - 1, |b| - 1;
    LastStep(a, b, sha);
    if Canonical(a[i]) == Canonical(b[j]) {
      Extends(a, b);
      SameBefore(a, b, sha, i, j);
      ChainPrefix(a, sha);
      ChainPrefix(b, sha);
      var a', b' := a[..i], b[..j];
      if i > 0 {
        assert a'[|a'| - 1] == a[i - 1] && b'[|b'| - 1] == b[j - 1];
        i, j := LastHashBindsChain(a', b', sha);
        LiftCollision(a, b, sha, i, j);
      } else {
        NoneAgree();
        assert a' == [] && b' == [];
      }
    }
  }

  lemma {:induction false} NoneAgree()
    ensures Agree([], [])
  {
  }

  lemma {:induction false} LiftCollision(a: seq<Record>, b: seq<Record>, sha: Sha, i: nat, j: nat)
    requires a != [] && b != []
    ensures Collision(a[..|a| - 1], b[..|b| - 1], sha, i, j) ==> Collision(a, b, sha, i, j)
  {
  }

  /** The last records of two chains with the same last hash: a collision there, or the same fields and the
      same hash before them. */
  lemma {:induction false} LastStep(a: seq<Record>, b: seq<Record>, sha: Sha)
    requires Chain(a, sha) && Chain(b, sha) && a != [] && b != []
    requires BarFree(a[|a| - 1]) && BarFree(b[|b| - 1]) && a[|a| - 1].thisHash == b[|b| - 1].thisHash
    ensures var i, j := |a| - 1, |b| - 1;
      if Canonical(a[i]) == Canonical(b[j])
      then Included(a[i]) == Included(b[j]) && HashBefore(a, i) == HashBefore(b, j)
      else Collision(a, b, sha, i, j)
  {
    hide Canonical, Included, Sealed, BarFree, HashBefore;
    var i, j := |a| - 1, |b| - 1;
    HashBindsRecord(a[i], b[j], HashBefore(a, i), HashBefore(b, j), sha);
  }

  /** Equal hashes before two records: both are first, or the records before them have equal hashes. */
  lemma {:induction false} SameBefore(a: seq<Record>, b: seq<Record>, sha: Sha, i: nat, j: nat)
    requires Chain(a, sha) && Chain(b, sha) && HexForm(sha) && i <= |a| && j <= |b|
    requires HashBefore(a, i) == HashBefore(b, j)
    ensures i == 0 <==> j == 0
    ensures i > 0 && j > 0 ==> a[i - 1].thisHash == b[j - 1].thisHash
  {
    hide Chain, HexForm;
    HashBeforeForm(a, i, sha);
    HashBeforeForm(b, j, sha);
  }

  /** Agreement of all records but the last, and of the last. */
  lemma {:induction false} Extends(a: seq<Record>, b: seq<Record>)
    requires a != [] && b != [] && Included(a[|a| - 1]) == Included(b[|b| - 1])
    ensures Agree(a[..|a| - 1], b[..|b| - 1]) ==> Agree(a, b)
  {
    hide Included;
    if Agree(a[..|a| - 1], b[..|b| - 1]) {
      forall k | 0 <= k < |a| ensures Included(a[k]) == Included(b[k]) {
        if k < |a| - 1 {
          assert Included(a[..|a| - 1][k]) == Included(b[..|b| - 1][k]);
        }
      }
    }
  }

  lemma {:induction false} StillSealed(r: Record, previous: string, sha: Sha, deviceId: string, notes: string)
    requires Sealed(r, previous, sha)
    ensures Sealed(r.(deviceId := deviceId, notes := notes), previous, sha)
  {
    SameCanonical(r, r.(deviceId := deviceId, notes := notes));
    hide Canonical;
  }

  /** A record may be replaced by another that is sealed alike and has the same hash. */
  lemma {:induction false} ReplaceSealed(rs: seq<Record>, k: nat, r: Record, sha: Sha)
    requires Chain(rs, sha) && k < |rs| && Sealed(r, HashBefore(rs, k), sha) && r.thisHash == rs[k].thisHash
    ensures Chain(rs[k := r], sha)
  {
    hide Sealed;
    var t := rs[k := r];
    forall i | 0 <= i < |t|
      ensures Sealed(t[i], HashBefore(t, i), sha)
    {
      assert HashBefore(t, i) == HashBefore(rs, i);
      assert Sealed(rs[i], HashBefore(rs, i), sha);
    }
  }

  /** What the hash does not bind: device id and notes can change freely in any chain. */
  lemma {:induction false} NotesAreNotBound(rs: seq<Record>, sha: Sha, k: nat, deviceId: string, notes: string)
    requires Chain(rs, sha) && k < |rs|
    ensures Chain(rs[k := rs[k].(deviceId := deviceId, notes := notes)], sha)
  {
    StillSealed(rs[k], HashBefore(rs, k), sha, deviceId, notes);
    ReplaceSealed(rs, k, rs[k].(deviceId := deviceId, notes := notes), sha);
  }
}
