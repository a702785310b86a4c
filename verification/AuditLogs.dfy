/**
 The audit log file: one JSON object per line, and the validator that scans the lines for the two hash
 fields. Scanning is plain substring search, so what it finds in a line written from a record is
 itself a theorem.
 */
module AuditLogs {
  import opened AuditRecords
  import Bytes

  const LINE_BUFFER: nat := 8192
  const PREVIOUS_KEY: string := "previous_record_hash"
  const HASH_KEY: string := "this_record_hash"

  datatype Status = Valid | Tampered | Empty

  // ---------- JSON lines ----------

  /** A JSON member: a quoted string value or a bare number or boolean. */
  datatype Field = Quoted(key: string, value: string) | Bare(key: string, value: string)

  function FieldText(f: Field): string {
    match f
    case Quoted(key, value) => "\"" + key + "\":\"" + value + "\""
    case Bare(key, value) => "\"" + key + "\":" + value
  }

  /** The members from here to the end of the object. */
  function Members(fs: seq<Field>): string {
    if |fs| == 0 then "}" else FieldText(fs[0]) + (if |fs| == 1 then "" else ",") + Members(fs[1..])
  }

  function Identity(r: Record): seq<Field> {
    [Quoted("case_id", r.caseId), Quoted("operation_id", r.operationId),
     Bare("sequence_number", Decimal(r.sequence)), Quoted("device_id", r.deviceId),
     Quoted("device_path", r.devicePath), Quoted("device_model", r.deviceModel),
     Quoted("device_serial", r.deviceSerial)]
  }

  function Details(r: Record, start: string, end: string): seq<Field> {
    [Bare("device_capacity_bytes", Decimal(r.capacity)), Bare("device_type", Signed(r.deviceType)),
     Bare("transport_type", Signed(r.transport)), Bare("method", Signed(r.sanitizer)),
     Bare("pattern", Signed(r.pattern)), Bare("passes", Decimal(r.passes)),
     Quoted("app_version", r.appVersion), Quoted("start_time", start), Quoted("end_time", end)]
  }

  function Outcome(r: Record): seq<Field> {
    [Bare("sanitization_result", Signed(r.sanitization)),
     Bare("verification_result_code", Signed(r.verification)),
     Bare("verification_passed", if r.verificationPassed then "true" else "false"),
     Quoted("pre_hash_sha256", r.preHash), Quoted("post_hash_sha256", r.postHash)]
  }

  function Hashes(r: Record): seq<Field> {
    [Quoted(PREVIOUS_KEY, r.previousHash), Quoted(HASH_KEY, r.thisHash), Quoted("notes", r.notes)]
  }

  /** The timestamps are formatted by the C library. */
  function Fields(r: Record, iso: int -> string): (fs: seq<Field>)
    ensures |fs| == 24
  {
    Identity(r) + Details(r, iso(r.startTime), iso(r.endTime)) + Outcome(r) + Hashes(r)
  }

  function Json(r: Record, iso: int -> string): string {
    "{" + Members(Fields(r, iso))
  }

  // ---------- substring search ----------

  /** `strstr`: the first offset at which the key stands. */
  function Find(s: string, key: string): (k: nat)
    ensures k <= |s|
    ensures k < |s| ==> key <= s[k..]
    ensures forall j :: 0 <= j < k ==> !(key <= s[j..])
  {
    if s == "" || key <= s then 0 else
      var k := Find(s[1..], key) + 1;
      assert forall j :: 0 < j < k ==> s[j..] == s[1..][j - 1..];
      assert k < |s| ==> s[k..] == s[1..][k - 1..];
      k
  }

  /** The characters up to the closing quote, at most 64. */
  function TakeHash(s: string, room: nat): string
    decreases room
  {
    if s == "" || s[0] == '"' || room == 0 then "" else [s[0]] + TakeHash(s[1..], room - 1)
  }

  /** It stops at the first quote, at the end, or when there is no more room, and no earlier. */
  lemma {:induction false} TakenHash(s: string, room: nat)
    ensures var t := TakeHash(s, room);
      && t <= s && |t| <= room && (forall i :: 0 <= i < |t| ==> t[i] != '"')
      && (|t| == room || |t| == |s| || s[|t|] == '"')
    decreases room
  {
    if s != "" && s[0] != '"' && room > 0 {
      TakenHash(s[1..], room - 1);
      var t := TakeHash(s[1..], room - 1);
      assert s[1..][..|t|] == t;
    }
  }

  function KeyText(name: string): string {
    "\"" + name + "\":\""
  }

  datatype Extract = Missing | Hash(text: string)

  /** What the validator reads behind a key. */
  function ExtractHash(line: string, name: string): Extract {
    var k := Find(line, KeyText(name));
    if k == |line| then Missing else Hash(TakeHash(line[k + |KeyText(name)|..], HASH_LENGTH))
  }

  // ---------- the validator ----------

  /** Loop state: the hash of the last line, the number of lines, and whether a line was refused. */
  datatype Scan = Scan(last: string, count: nat, ok: bool)

  function CheckLine(s: Scan, line: string): Scan {
    if line == "" then s
    else
      var stored := ExtractHash(line, HASH_KEY);
      if stored.Missing? then Scan(s.last, s.count + 1, false)
      else
        var previous := match ExtractHash(line, PREVIOUS_KEY) case Missing => "" case Hash(t) => t;
        if s.count > 0 && previous != s.last then Scan(s.last, s.count + 1, false)
        else if |stored.text| != HASH_LENGTH then Scan(s.last, s.count + 1, false)
        else Scan(stored.text, s.count + 1, true)
  }

  function CheckLines(s: Scan, lines: seq<string>): Scan
    decreases |lines|
  {
    if lines == [] || !s.ok then s else CheckLines(CheckLine(s, lines[0]), lines[1..])
  }

  function Verdict(lines: seq<string>): Status {
    var s := CheckLines(Scan("", 0, true), lines);
    if s.count == 0 then Empty else if s.ok then Valid else Tampered
  }

  // ---------- lines of a file ----------

  function NewlineAt(s: string): (k: nat)
    ensures k <= |s|
    ensures k < |s| ==> s[k] == '\n'
    ensures forall j :: 0 <= j < k ==> s[j] != '\n'
  {
    if s == "" || s[0] == '\n' then 0 else
      var k := NewlineAt(s[1..]) + 1;
      assert forall j :: 0 < j < k ==> s[j] == s[1..][j - 1];
      k
  }

  /** How many characters one `fgets` takes: a line with its newline, or as much as the buffer holds. */
  function Chunk(s: string): (n: nat)
    requires s != ""
    ensures 0 < n <= |s| && n <= 8191
    ensures forall i :: 0 <= i < n - 1 ==> s[i] != '\n'
    ensures n == |s| || n == 8191 || s[n - 1] == '\n'
  {
    var line := if NewlineAt(s) < |s| then NewlineAt(s) + 1 else |s|;
    if line <= LINE_BUFFER - 1 then line else LINE_BUFFER - 1
  }

  function Strip(s: string): (r: string)
    ensures s == r + "\n" || (s == r && (s == "" || s[|s| - 1] != '\n'))
  {
    if s != "" && s[|s| - 1] == '\n' then s[..|s| - 1] else s
  }

  function Lines(file: string): seq<string>
    decreases |file|
  {
    if file == "" then [] else [Strip(file[..Chunk(file)])] + Lines(file[Chunk(file)..])
  }

  /** `audit_log_append_file`: the JSON text, as much as its buffer holds, and a newline. */
  function Append(file: string, r: Record, iso: int -> string): string {
    file + FitLine(Json(r, iso)) + "\n"
  }

  function FitLine(s: string): (r: string)
    ensures |s| < 8192 ==> r == s
    ensures |s| >= 8192 ==> |r| == 8191 && r == s[..8191]
  {
    if |s| <= LINE_BUFFER - 1 then s else s[..LINE_BUFFER - 1]
  }

  // ---------- the loops ----------

  lemma {:induction false} TakeOne(hash: string, rest: string, room: nat)
    requires rest != "" && rest[0] != '"' && room > 0
    ensures hash + TakeHash(rest, room) == hash + [rest[0]] + TakeHash(rest[1..], room - 1)
  {
    assert hash + ([rest[0]] + TakeHash(rest[1..], room - 1)) == hash + [rest[0]] + TakeHash(rest[1..], room - 1);
  }

  lemma {:induction false} NoneToTake(hash: string, rest: string, room: nat)
    requires rest == "" || rest[0] == '"' || room == 0
    ensures hash + TakeHash(rest, room) == hash
  {
    assert hash + "" == hash;
  }

  method ReadHash(line: string, start: nat) returns (hash: string)
    requires start <= |line|
    ensures hash == TakeHash(line[start..], 64)
  {
    hide TakeHash;
    hash := "";
    var i: nat := 0;
    assert line[start..] == line[start + i..]
        && "" + TakeHash(line[start..], HASH_LENGTH) == TakeHash(line[start..], HASH_LENGTH);
    while i < HASH_LENGTH && start + i < |line| && line[start + i] != '"'
      invariant i <= HASH_LENGTH && start + i <= |line|
      invariant hash + TakeHash(line[start + i..], HASH_LENGTH - i) == TakeHash(line[start..], HASH_LENGTH)
    {
      assert line[start + i..][1..] == line[start + i + 1..];
      TakeOne(hash, line[start + i..], HASH_LENGTH - i);
      hash := hash + [line[start + i]];
      i := i + 1;
    }
    NoneToTake(hash, line[start + i..], HASH_LENGTH - i);
  }

  lemma {:induction false} ExtractIs(line: string, name: string)
    ensures var k, key := Find(line, KeyText(name)), KeyText(name);
      && k <= |line| && (k < |line| ==> k + |key| <= |line|)
      && ExtractHash(line, name) == if k == |line| then Missing else Hash(TakeHash(line[k + |key|..], HASH_LENGTH))
  {
  }

  /** The body of the reading loop, for a line that is not empty. */
  method ValidateLine(line: string, last: string, count: nat) returns (ok: bool, next: string)
    requires line != ""
    ensures CheckLine(Scan(last, count, true), line) == Scan(next, count + 1, ok)
  {
    hide Find, TakeHash, KeyText, ExtractHash;
    next := last;
    ExtractIs(line, HASH_KEY);
    ExtractIs(line, PREVIOUS_KEY);
    var k := Find(line, KeyText(HASH_KEY));
    if k == |line| {
      return false, last;
    }
    var stored := ReadHash(line, k + |KeyText(HASH_KEY)|);
    var p := Find(line, KeyText(PREVIOUS_KEY));
    var storedPrevious := "";
    if p < |line| {
      storedPrevious := ReadHash(line, p + |KeyText(PREVIOUS_KEY)|);
    }
    if count > 0 && storedPrevious != last {
      return false, last;
    }
    if |stored| != HASH_LENGTH {
      return false, last;
    }
    return true, stored;
  }

  /** One line less to read. */
  lemma {:induction false} ScanStep(s: Scan, rest: string)
    requires rest != "" && s.ok
    ensures var n := Chunk(rest);
      CheckLines(s, Lines(rest)) == CheckLines(CheckLine(s, Strip(rest[..n])), Lines(rest[n..]))
  {
    hide CheckLine, Lines, Chunk, Strip;
    LinesCons(rest);
    assert Lines(rest)[1..] == Lines(rest[Chunk(rest)..]);
  }

  lemma {:induction false} ScanEnd(s: Scan, rest: string)
    requires rest == "" || !s.ok
    ensures CheckLines(s, Lines(rest)) == s
  {
  }

  method ValidateChain(file: string) returns (status: Status)
    ensures status == Verdict(Lines(file))
  {
    hide CheckLine, CheckLines, Lines, Chunk, Strip, NewlineAt;
    var last, count, ok := "", 0, true;
    var rest := file;
    while rest != "" && ok
      invariant CheckLines(Scan(last, count, ok), Lines(rest)) == CheckLines(Scan("", 0, true), Lines(file))
      decreases |rest|
    {
      ScanStep(Scan(last, count, ok), rest);
      var n := Chunk(rest);
      var line := Strip(rest[..n]);
      rest := rest[n..];
      if line == "" {
        BlankLine(Scan(last, count, ok));
        continue;
      }
      ok, last := ValidateLine(line, last, count);
      count := count + 1;
    }
    ScanEnd(Scan(last, count, ok), rest);
    if count == 0 {
      return Empty;
    }
    return if ok then Valid else Tampered;
  }

  lemma {:induction false} BlankLine(s: Scan)
    ensures CheckLine(s, "") == s
  {
  }

  lemma {:induction false} LinesCons(file: string)
    requires file != ""
    ensures Lines(file) == [Strip(file[..Chunk(file)])] + Lines(file[Chunk(file)..])
  {
  }

  // ---------- what the search finds in a line ----------

  predicate Free(s: string, c: char) {
    forall i :: 0 <= i < |s| ==> s[i] != c
  }

  ghost predicate Clean(f: Field) {
    Free(f.key, '"') && Free(f.value, '"')
  }

  /** A key name that cannot be mistaken for punctuation. */
  ghost predicate Name(name: string) {
    Free(name, '"') && name != "" && name[0] != ':' && name[0] != ',' && name[0] != '}'
  }

  /** Where the key text stands, the characters are the name between two quotes, a colon and a quote. */
  lemma {:induction false} KeyChars(s: string, p: nat, name: string)
    requires p <= |s| && KeyText(name) <= s[p..]
    ensures p + |name| + 4 <= |s|
    ensures s[p] == '"' && s[p + 1 + |name|] == '"' && s[p + 2 + |name|] == ':' && s[p + 3 + |name|] == '"'
    ensures s[p + 1..p + 1 + |name|] == name
  {
    var key := KeyText(name);
    assert s[p..][..|key|] == key;
    assert forall i :: 0 <= i < |key| ==> s[p + i] == key[i];
    assert forall i :: 0 <= i < |name| ==> key[1 + i] == name[i];
  }

  /** The name ends at the next quote. */
  lemma {:induction false} NameEndsAtQuote(s: string, p: nat, name: string, q: nat)
    requires p <= |s| && KeyText(name) <= s[p..] && Free(name, '"')
    requires p < q < |s| && s[q] == '"' && forall i :: p < i < q ==> s[i] != '"'
    ensures q == p + 1 + |name| && s[p + 1..q] == name && q + 2 < |s| && s[q + 1] == ':' && s[q + 2] == '"'
  {
    KeyChars(s, p, name);
    assert forall i :: 0 <= i < |name| ==> name[i] == s[p + 1..p + 1 + |name|][i] == s[p + 1 + i];
  }

  /** Where the quotes of a string member are. */
  lemma {:induction false} QuotedChars(f: Field, tail: string)
    requires Clean(f) && f.Quoted? && tail != ""
    ensures var s, k, e := FieldText(f) + tail, |f.key|, |f.key| + 4 + |f.value|;
      && |FieldText(f)| == e + 1 && e + 1 < |s|
      && s[0] == '"' && s[k + 1] == '"' && s[k + 2] == ':' && s[k + 3] == '"' && s[e] == '"' && s[e + 1] == tail[0]
      && s[1..k + 1] == f.key
      && (forall i :: 0 < i <= k ==> s[i] != '"') && (forall i :: k + 3 < i < e ==> s[i] != '"')
  {
    TameQuotedChars(f, tail);
    var s, k := FieldText(f) + tail, |f.key|;
    hide FieldText;
    var value := s[k + 3..k + 5 + |f.value|];
    assert forall i :: k + 3 < i < k + 4 + |f.value| ==> s[i] == value[i - k - 3] == f.value[i - k - 4];
  }

  lemma {:induction false} BareChars(f: Field, tail: string)
    requires Clean(f) && f.Bare? && tail != ""
    ensures var s, k, e := FieldText(f) + tail, |f.key|, |f.key| + 3 + |f.value|;
      && |FieldText(f)| == e && e < |s|
      && s[0] == '"' && s[k + 1] == '"' && s[k + 2] == ':' && s[e] == tail[0]
      && (forall i :: 0 < i <= k ==> s[i] != '"') && (forall i :: k + 2 < i < e ==> s[i] != '"')
  {
    var s, k := FieldText(f) + tail, |f.key|;
    assert forall i :: 0 < i <= k ==> s[i] == f.key[i - 1];
    assert forall i :: k + 2 < i < k + 3 + |f.value| ==> s[i] == f.value[i - k - 3];
  }

  lemma {:induction false} FirstCharOfName(s: string, p: nat, name: string)
    requires p <= |s| && KeyText(name) <= s[p..] && Name(name)
    ensures p + 1 < |s| && s[p] == '"' && s[p + 1] == name[0]
  {
    KeyChars(s, p, name);
    assert s[p + 1..p + 1 + |name|][0] == s[p + 1];
  }

  /** In a member followed by a comma or a brace, the key text stands at the front, if at all, and
      only if the member is a string with that name. */
  lemma {:induction false} KeyInMember(f: Field, tail: string, name: string, p: nat)
    requires Clean(f) && Name(name) && tail != "" && (tail[0] == ',' || tail[0] == '}')
    requires p <= |FieldText(f)| && KeyText(name) <= (FieldText(f) + tail)[p..]
    ensures p == 0 && f.Quoted? && f.key == name
  {
    hide FieldText, KeyText;
    var s, k := FieldText(f) + tail, |f.key|;
    FirstCharOfName(s, p, name);
    if f.Quoted? {
      QuotedChars(f, tail);
      MiddleOfString(s, p, name, k, k + 4 + |f.value|);
      assert p == 0;
    } else {
      BareChars(f, tail);
      assert p == 0;
    }
    NameEndsAtQuote(s, 0, name, k + 1);
  }

  lemma {:induction false} MiddleOfString(s: string, p: nat, name: string, k: nat, e: nat)
    requires k + 4 <= e && e + 1 < |s| && p <= |s| && KeyText(name) <= s[p..] && Name(name)
    requires s[k + 2] == ':' && s[e] == '"' && (s[e + 1] == ',' || s[e + 1] == '}')
    requires forall i :: k + 3 < i < e ==> s[i] != '"'
    ensures p != k + 1 && p != k + 3 && p != e
  {
    KeyChars(s, p, name);
    assert s[p + 1] == name[0];
    if p == k + 3 {
      NameEndsAtQuote(s, p, name, e);
    }
  }

  lemma {:induction false} FindPast(a: string, s: string, key: string)
    requires key != "" && forall p :: 0 <= p < |a| ==> !(key <= (a + s)[p..])
    ensures Find(a + s, key) == |a| + Find(s, key)
  {
    if a == "" {
      assert a + s == s;
    } else {
      assert (a + s)[0..] == a + s;
      assert (a + s)[1..] == a[1..] + s;
      forall p | 0 <= p < |a[1..]|
        ensures !(key <= (a[1..] + s)[p..])
      {
        assert (a[1..] + s)[p..] == (a + s)[p + 1..];
      }
      FindPast(a[1..], s, key);
    }
  }

  /** The value of the first string member with a name. */
  ghost function Lookup(fs: seq<Field>, name: string): Extract {
    if fs == [] then Missing
    else if fs[0].Quoted? && fs[0].key == name then Hash(fs[0].value)
    else Lookup(fs[1..], name)
  }

  /** The text after a member. */
  ghost function AfterMember(fs: seq<Field>): string
    requires fs != []
  {
    (if |fs| == 1 then "" else ",") + Members(fs[1..])
  }

  lemma {:induction false} MembersCons(fs: seq<Field>)
    requires fs != []
    ensures Members(fs) == FieldText(fs[0]) + AfterMember(fs)
    ensures AfterMember(fs) != "" && (AfterMember(fs)[0] == ',' || AfterMember(fs)[0] == '}')
  {
  }

  /** The key is at `k` in the text, and the value, with its closing quote, behind it. */
  ghost predicate FoundAt(m: string, key: string, k: nat, x: Extract) {
    match x
    case Missing => k == |m|
    case Hash(value) => key != "" && k + |key| <= |m| && value + "\"" <= m[k + |key|..]
  }

  /** Searching the members of an object for a key finds its first string member of that name. */
  lemma {:induction false} FindMember(fs: seq<Field>, name: string)
    requires Name(name) && forall i :: 0 <= i < |fs| ==> Clean(fs[i])
    ensures FoundAt(Members(fs), KeyText(name), Find(Members(fs), KeyText(name)), Lookup(fs, name))
    decreases |fs|
  {
    hide Find, KeyText, Members, FoundAt, FieldText;
    if fs == [] {
      NoMembers(name);
    } else if fs[0].Quoted? && fs[0].key == name {
      FirstMember(fs);
    } else {
      SkipMember(fs, name);
      FindMember(fs[1..], name);
      var gap := |Members(fs)| - |Members(fs[1..])|;
      FoundLater(Members(fs), gap, KeyText(name), Find(Members(fs[1..]), KeyText(name)), Lookup(fs[1..], name));
    }
  }

  lemma {:induction false} FoundLater(m: string, gap: nat, key: string, k: nat, x: Extract)
    requires gap <= |m| && FoundAt(m[gap..], key, k, x)
    ensures FoundAt(m, key, gap + k, x)
  {
    if x.Hash? {
      assert m[gap..][k + |key|..] == m[gap + k + |key|..];
    }
  }

  lemma {:induction false} NoMembers(name: string)
    ensures FoundAt(Members([]), KeyText(name), Find(Members([]), KeyText(name)), Missing)
  {
    assert "}"[0..] == "}" && KeyText(name)[0] == '"';
  }

  lemma {:induction false} FirstMember(fs: seq<Field>)
    requires fs != [] && fs[0].Quoted?
    ensures Find(Members(fs), KeyText(fs[0].key)) == 0
    ensures FoundAt(Members(fs), KeyText(fs[0].key), 0, Hash(fs[0].value))
  {
    MembersCons(fs);
    QuotedText(fs[0]);
    hide *;
    FrontFound(KeyText(fs[0].key), fs[0].value, AfterMember(fs));
  }

  lemma {:induction false} QuotedText(f: Field)
    requires f.Quoted?
    ensures FieldText(f) == KeyText(f.key) + f.value + "\"" && KeyText(f.key) != ""
  {
  }

  lemma {:induction false} FrontFound(key: string, v: string, tail: string)
    requires key != ""
    ensures var m := key + v + "\"" + tail; Find(m, key) == 0 && FoundAt(m, key, 0, Hash(v))
  {
    var m := key + v + "\"" + tail;
    assert m == key + (v + "\"" + tail);
    assert m[|key|..] == v + "\"" + tail;
    FindAtFront(m, key);
  }

  lemma {:induction false} FindAtFront(s: string, key: string)
    requires key <= s
    ensures Find(s, key) == 0
  {
  }

  lemma {:induction false} SkipMember(fs: seq<Field>, name: string)
    requires fs != [] && Name(name) && Clean(fs[0]) && !(fs[0].Quoted? && fs[0].key == name)
    ensures var gap := |Members(fs)| - |Members(fs[1..])|;
      && gap >= 0 && Members(fs)[gap..] == Members(fs[1..])
      && Find(Members(fs), KeyText(name)) == gap + Find(Members(fs[1..]), KeyText(name))
  {
    MembersCons(fs);
    var m, key := Members(fs), KeyText(name);
    var f, tail, rest := fs[0], AfterMember(fs), Members(fs[1..]);
    var head := FieldText(f) + (if |fs| == 1 then "" else ",");
    assert m == head + rest;
    forall p | 0 <= p < |head|
      ensures !(key <= (head + rest)[p..])
    {
      if key <= (head + rest)[p..] {
        KeyInMember(f, tail, name, p);
      }
    }
    FindPast(head, rest, key);
  }

  lemma {:induction false} TakeUpToQuote(v: string, t: string, room: nat)
    requires Free(v, '"') && "\"" <= t
    ensures TakeHash(v + t, room) == if |v| <= room then v else v[..room]
    decreases room
  {
    if v == "" {
      assert v + t == t;
    } else if room > 0 {
      assert (v + t)[1..] == v[1..] + t;
      TakeUpToQuote(v[1..], t, room - 1);
    }
  }

  /** Hence the validator reads the value, cut to 64 characters. */
  lemma {:induction false} ExtractsMember(fs: seq<Field>, name: string)
    requires Name(name) && forall i :: 0 <= i < |fs| ==> Clean(fs[i])
    ensures ExtractHash("{" + Members(fs), name) ==
      match Lookup(fs, name) case Missing => Missing case Hash(v) => Hash(Fit(v))
  {
    hide Find, Members, Lookup, TakeHash, Clean;
    var m, key := Members(fs), KeyText(name);
    BraceFirst(m, key);
    FindMember(fs, name);
    LookupIsClean(fs, name);
    var line, k := "{" + m, Find(m, key);
    if Lookup(fs, name).Hash? {
      var v := Lookup(fs, name).text;
      assert line[1 + k + |key|..] == m[k + |key|..];
      HashBehindKey(m[k + |key|..], v);
    }
  }

  lemma {:induction false} HashBehindKey(rest: string, v: string)
    requires Free(v, '"') && v + "\"" <= rest
    ensures TakeHash(rest, HASH_LENGTH) == Fit(v)
  {
    assert rest == v + rest[|v|..];
    assert rest[|v|] == (v + "\"")[|v|];
    TakeUpToQuote(v, rest[|v|..], HASH_LENGTH);
  }

  lemma {:induction false} BraceFirst(m: string, key: string)
    requires key != "" && key[0] == '"'
    ensures Find("{" + m, key) == 1 + Find(m, key)
  {
    assert ("{" + m)[0..] == "{" + m;
    FindPast("{", m, key);
  }

  lemma {:induction false} LookupIsClean(fs: seq<Field>, name: string)
    requires forall i :: 0 <= i < |fs| ==> Clean(fs[i])
    ensures Lookup(fs, name).Hash? ==> Free(Lookup(fs, name).text, '"')
  {
    if fs != [] {
      LookupIsClean(fs[1..], name);
    }
  }

  // ---------- when the search finds a member of its own ----------

  /** Names and bare values hold no quotes; string values may hold anything. */
  ghost predicate Tame(f: Field) {
    Free(f.key, '"') && (f.Bare? ==> Free(f.value, '"'))
  }

  function QuotedValue(f: Field): string {
    "\"" + f.value + "\""
  }

  /** The text of the member holds the key, its quotes included. */
  ghost predicate Shadows(f: Field, name: string) {
    f.Quoted? && Occurs(QuotedValue(f), KeyText(name))
  }

  /** Where the quotes of a string member are, whatever its value. */
  lemma {:induction false} TameQuotedChars(f: Field, tail: string)
    requires Tame(f) && f.Quoted? && tail != ""
    ensures var s, k, e := FieldText(f) + tail, |f.key|, |f.key| + 4 + |f.value|;
      && |FieldText(f)| == e + 1 && e + 1 < |s|
      && s[0] == '"' && s[k + 1] == '"' && s[k + 2] == ':' && s[k + 3] == '"' && s[e] == '"' && s[e + 1] == tail[0]
      && s[1..k + 1] == f.key && s[k + 3..e + 1] == QuotedValue(f)
      && (forall i :: 0 < i <= k ==> s[i] != '"')
  {
    hide Free;
    var before := "\"" + f.key + "\":";
    assert FieldText(f) + tail == before + QuotedValue(f) + tail;
    MiddlePart(before, QuotedValue(f), tail);
    var value := QuotedValue(f);
    assert value[0] == '"' && value[|value| - 1] == '"';
    KeyPart(f.key, QuotedValue(f) + tail);
    assert FieldText(f) + tail == before + (QuotedValue(f) + tail);
  }

  lemma {:induction false} MiddlePart(before: string, middle: string, after: string)
    ensures var s := before + middle + after;
      && s[|before|..|before| + |middle|] == middle
      && (forall i :: 0 <= i < |middle| ==> s[|before| + i] == middle[i])
      && (after != "" ==> s[|before| + |middle|] == after[0])
  {
  }

  lemma {:induction false} KeyPart(key: string, rest: string)
    requires Free(key, '"')
    ensures var s := "\"" + key + "\":" + rest;
      && s[0] == '"' && s[1..|key| + 1] == key && s[|key| + 1] == '"' && s[|key| + 2] == ':'
      && (forall i :: 0 < i <= |key| ==> s[i] != '"')
  {
    var s := "\"" + key + "\":" + rest;
    assert forall i :: 0 < i <= |key| ==> s[i] == key[i - 1];
  }

  /** A key text that begins inside the value ends with it at the latest. */
  lemma {:induction false} EndsInValue(s: string, p: nat, name: string, start: nat, e: nat)
    requires start <= p < e && e + 1 < |s| && KeyText(name) <= s[p..] && Name(name)
    requires s[e] == '"' && s[e + 1] != ':'
    ensures OccursAt(s[start..e + 1], KeyText(name), p - start)
  {
    var key := KeyText(name);
    KeyChars(s, p, name);
    KeyNotEmpty(name);
    forall i | p < i < p + 1 + |name| ensures s[i] != '"' {
      assert s[i] == s[p + 1..p + 1 + |name|][i - p - 1] == name[i - p - 1];
    }
    assert e >= p + 1 + |name|;
    assert e != p + 1 + |name| && e != p + 2 + |name|;
    assert p + |key| <= e + 1;
    OccursInSlice(s, key, p, start, e + 1);
  }

  lemma {:induction false} OccursInSlice(s: string, key: string, p: nat, a: nat, b: nat)
    requires a <= p && p + |key| <= b <= |s| && key <= s[p..]
    ensures OccursAt(s[a..b], key, p - a)
  {
    assert forall i :: 0 <= i < |key| ==> s[a..b][p - a + i] == s[p + i] == s[p..][i] == key[i];
  }

  /** A key in a member of another name is inside its quoted value. */
  lemma {:induction false} KeyInTame(f: Field, tail: string, name: string, p: nat)
    requires Tame(f) && Name(name) && f.key != name && tail != "" && (tail[0] == ',' || tail[0] == '}')
    requires p <= |FieldText(f)| && KeyText(name) <= (FieldText(f) + tail)[p..]
    ensures Shadows(f, name)
  {
    hide FieldText, KeyText, QuotedValue;
    if f.Quoted? {
      TameQuotedChars(f, tail);
      InTameQuoted(f, tail, name, p);
    } else {
      assert Clean(f);
      KeyInMember(f, tail, name, p);
    }
  }

  lemma {:induction false} InTameQuoted(f: Field, tail: string, name: string, p: nat)
    requires Tame(f) && Name(name) && f.Quoted? && f.key != name && tail != "" && (tail[0] == ',' || tail[0] == '}')
    requires p <= |FieldText(f)| && KeyText(name) <= (FieldText(f) + tail)[p..]
    ensures Shadows(f, name)
  {
    hide FieldText, KeyText, QuotedValue;
    var s, k, e := FieldText(f) + tail, |f.key|, |f.key| + 4 + |f.value|;
    TameQuotedChars(f, tail);
    FirstCharOfName(s, p, name);
    if p == 0 {
      NameEndsAtQuote(s, 0, name, k + 1);
    }
    assert k + 3 <= p < e;
    EndsInValue(s, p, name, k + 3, e);
  }

  /** The other way round, a shadowing member holds the key before its end. */
  lemma {:induction false} ShadowIsFound(f: Field, rest: string, name: string)
    requires Tame(f) && Shadows(f, name)
    ensures Find(FieldText(f) + rest, KeyText(name)) < |FieldText(f)|
  {
    hide Find, KeyText;
    var i :| OccursAt(QuotedValue(f), KeyText(name), i);
    var s, before := FieldText(f) + rest, "\"" + f.key + "\":";
    assert FieldText(f) == before + QuotedValue(f);
    InMiddle(before, QuotedValue(f), rest, KeyText(name), i);
    FindAtMost(s, KeyText(name), |before| + i);
    KeyNotEmpty(name);
  }

  lemma {:induction false} InMiddle(before: string, middle: string, after: string, key: string, i: nat)
    requires OccursAt(middle, key, i)
    ensures |before| + i <= |before + middle + after| && key <= (before + middle + after)[|before| + i..]
  {
    var s, p := before + middle + after, |before| + i;
    assert forall j :: 0 <= j < |key| ==> key[j] == middle[i..i + |key|][j] == middle[i + j] == s[p + j] == s[p..][j];
  }

  lemma {:induction false} KeyNotEmpty(name: string)
    ensures |KeyText(name)| == |name| + 4
  {
  }

  lemma {:induction false} FindAtMost(s: string, key: string, p: nat)
    requires p <= |s| && key <= s[p..]
    ensures Find(s, key) <= p
  {
  }

  /** Where member `j` begins in the text of the members. */
  function Offset(fs: seq<Field>, j: nat): nat
    requires j < |fs|
  {
    if j == 0 then 0 else |FieldText(fs[0])| + 1 + Offset(fs[1..], j - 1)
  }

  ghost predicate NoShadow(fs: seq<Field>, j: nat, name: string)
    requires j <= |fs|
  {
    forall i :: 0 <= i < j ==> !Shadows(fs[i], name)
  }

  lemma {:induction false} NoShadowCons(fs: seq<Field>, j: nat, name: string)
    requires 0 < j <= |fs|
    ensures NoShadow(fs, j, name) <==> !Shadows(fs[0], name) && NoShadow(fs[1..], j - 1, name)
  {
    assert forall i :: 0 <= i < j - 1 ==> fs[1..][i] == fs[i + 1];
    assert forall i :: 1 <= i < j ==> fs[i] == fs[1..][i - 1];
  }

  /** The search finds member `j` of that name, if and only if no text before it holds the key. */
  lemma {:induction false} FindsOwnIff(fs: seq<Field>, j: nat, name: string)
    requires j < |fs| && Name(name) && fs[j].Quoted? && fs[j].key == name
    requires forall i :: 0 <= i < j ==> Tame(fs[i]) && fs[i].key != name
    ensures Find(Members(fs), KeyText(name)) == Offset(fs, j) <==> NoShadow(fs, j, name)
    decreases j
  {
    hide Find, KeyText, Members, FieldText, Shadows, NoShadow, Tame;
    MembersCons(fs);
    if j == 0 {
      FirstMember(fs);
      NothingBefore(fs, name);
    } else {
      NoShadowCons(fs, j, name);
      if Shadows(fs[0], name) {
        ShadowIsFound(fs[0], AfterMember(fs), name);
      } else {
        SkipTame(fs, name);
        FindsOwnIff(fs[1..], j - 1, name);
      }
    }
  }

  lemma {:induction false} NothingBefore(fs: seq<Field>, name: string)
    ensures NoShadow(fs, 0, name)
  {
  }

  lemma {:induction false} CommaAfter(fs: seq<Field>)
    requires |fs| > 1
    ensures AfterMember(fs) == "," + Members(fs[1..])
  {
  }

  lemma {:induction false} SkipTame(fs: seq<Field>, name: string)
    requires |fs| > 1 && Name(name) && Tame(fs[0]) && fs[0].key != name && !Shadows(fs[0], name)
    ensures Find(Members(fs), KeyText(name)) == |FieldText(fs[0])| + 1 + Find(Members(fs[1..]), KeyText(name))
  {
    hide Find, Shadows, Members, FieldText, KeyText, AfterMember, Tame;
    MembersCons(fs);
    CommaAfter(fs);
    KeyNotEmpty(name);
    var m, key := Members(fs), KeyText(name);
    var f, tail, rest := fs[0], AfterMember(fs), Members(fs[1..]);
    var head := FieldText(f) + ",";
    assert m == head + rest && head + rest == FieldText(f) + tail;
    forall p | 0 <= p < |head|
      ensures !(key <= (head + rest)[p..])
    {
      if key <= (head + rest)[p..] {
        KeyInTame(f, tail, name, p);
      }
    }
    FindPast(head, rest, key);
  }

  // ---------- lines written from records ----------

  predicate OneLine(s: string) {
    Free(s, '\n')
  }

  predicate Plain(s: string) {
    Free(s, '"') && OneLine(s)
  }

  /** A record as its C structure can hold it, with text fields on one line that do not hold the key of a hash
      field written after them, quotes and all, and a timestamp format that fits its 32-byte buffer. */
  ghost predicate Loggable(r: Record, iso: int -> string) {
    && InBounds(r)
    && OneLine(r.caseId) && OneLine(r.operationId) && OneLine(r.deviceId) && OneLine(r.devicePath)
    && OneLine(r.deviceModel) && OneLine(r.deviceSerial) && OneLine(r.appVersion)
    && OneLine(r.preHash) && OneLine(r.postHash) && OneLine(r.notes)
    && OneLine(iso(r.startTime)) && OneLine(iso(r.endTime)) && |iso(r.startTime)| < 32 && |iso(r.endTime)| < 32
    && Plain(r.previousHash) && Plain(r.thisHash)
    && NoShadow(Fields(r, iso), OwnIndex(PREVIOUS_KEY), PREVIOUS_KEY)
    && NoShadow(Fields(r, iso), OwnIndex(HASH_KEY), HASH_KEY)
  }

  /** Where a hash field stands among the members of a record's line. */
  function OwnIndex(name: string): (j: nat)
    ensures j < 24
  {
    if name == PREVIOUS_KEY then 21 else 22
  }

  /** A member that can stand in a log line: on one line, short key, value within a limit. */
  ghost predicate Fits(f: Field, limit: nat) {
    OneLine(f.key) && OneLine(f.value) && |f.key| <= 24 && |f.value| <= limit
  }

  lemma {:induction false} NumbersArePlain(n: nat, i: int)
    requires n < Bytes.TWO64 && Int64(i)
    ensures Plain(Decimal(n)) && Plain(Signed(i)) && |Decimal(n)| <= 20 && |Signed(i)| <= 21
  {
    NumbersAreShort(n, i);
  }

  ghost predicate Key(s: string) {
    Plain(s) && |s| <= 24
  }

  lemma {:induction false} IdentityKeys()
    ensures Key("case_id") && Key("operation_id") && Key("sequence_number") && Key("device_id")
    ensures Key("device_path") && Key("device_model") && Key("device_serial")
  {
  }

  lemma {:induction false} DetailKeys()
    ensures Key("device_type") && Key("transport_type") && Key("method") && Key("pattern") && Key("passes")
    ensures Key("app_version") && Key("start_time") && Key("end_time")
  {
  }

  lemma {:induction false} OutcomeKeys()
    ensures Key("sanitization_result") && Key("verification_passed") && Key("pre_hash_sha256")
  {
  }

  lemma {:induction false} LongKeys()
    ensures Key("device_capacity_bytes") && Key("verification_result_code") && Key("post_hash_sha256")
  {
  }

  lemma {:induction false} IdentityFits(r: Record, iso: int -> string)
    requires Loggable(r, iso)
    ensures forall i :: 0 <= i < 7 ==> Fits(Identity(r)[i], 255)
  {
    hide Decimal, Signed, Free;
    IdentityKeys();
    NumbersArePlain(r.sequence, 0);
  }

  lemma {:induction false} DetailsFit(r: Record, iso: int -> string)
    requires Loggable(r, iso)
    ensures forall i :: 0 <= i < 9 ==> Fits(Details(r, iso(r.startTime), iso(r.endTime))[i], 255)
  {
    hide Decimal, Signed, Free;
    DetailKeys();
    LongKeys();
    NumbersArePlain(r.capacity, r.deviceType);
    NumbersArePlain(r.passes, r.transport);
    NumbersArePlain(0, r.sanitizer);
    NumbersArePlain(0, r.pattern);
  }

  lemma {:induction false} FlagIsPlain(b: bool)
    ensures Plain(if b then "true" else "false")
  {
  }

  lemma {:induction false} OutcomeFits(r: Record, iso: int -> string)
    requires Loggable(r, iso)
    ensures forall i :: 0 <= i < 5 ==> Fits(Outcome(r)[i], 255)
  {
    hide Decimal, Signed, Free;
    OutcomeKeys();
    LongKeys();
    FlagIsPlain(r.verificationPassed);
    NumbersArePlain(0, r.sanitization);
    NumbersArePlain(0, r.verification);
  }

  lemma {:induction false} HashesFit(r: Record, iso: int -> string)
    requires Loggable(r, iso)
    ensures forall i :: 0 <= i < 3 ==> Fits(Hashes(r)[i], 511)
  {
    hide Decimal, Signed, Free, NoShadow;
    HashKeys();
  }

  lemma {:induction false} HashKeys()
    ensures Key(PREVIOUS_KEY) && Key(HASH_KEY) && Key("notes")
  {
  }

  /** The part of the object before the hash fields. */
  function Front(r: Record, iso: int -> string): (fs: seq<Field>)
    ensures |fs| == 21
  {
    Identity(r) + Details(r, iso(r.startTime), iso(r.endTime)) + Outcome(r)
  }

  lemma {:induction false} FrontFits(r: Record, iso: int -> string)
    requires Loggable(r, iso)
    ensures forall i :: 0 <= i < 21 ==> Fits(Front(r, iso)[i], 255)
  {
    IdentityFits(r, iso);
    DetailsFit(r, iso);
    OutcomeFits(r, iso);
    hide Identity, Details, Outcome, Fits;
  }

  /** No member before the hash fields has one of their names. */
  lemma {:induction false} FrontNames(r: Record, iso: int -> string)
    ensures forall i :: 0 <= i < 21 ==> Front(r, iso)[i].key != HASH_KEY && Front(r, iso)[i].key != PREVIOUS_KEY
  {
    hide Decimal, Signed;
    assert HASH_KEY[0] == 't' && HASH_KEY[1] == 'h' && |HASH_KEY| == 16;
    assert PREVIOUS_KEY[1] == 'r' && PREVIOUS_KEY[0] == 'p' && PREVIOUS_KEY[2] == 'e' && |PREVIOUS_KEY| == 20;
  }

  lemma {:induction false} HashNames()
    ensures Name(HASH_KEY) && Name(PREVIOUS_KEY)
  {
  }

  lemma {:induction false} FieldsSplit(r: Record, iso: int -> string)
    ensures Fields(r, iso) == Front(r, iso) + Hashes(r)
  {
  }

  lemma {:induction false} FrontTame(r: Record, iso: int -> string)
    ensures forall i :: 0 <= i < 21 ==> Tame(Front(r, iso)[i])
  {
    hide Identity, Details, Outcome, Tame;
    IdentityTame(r);
    DetailsTame(r, iso(r.startTime), iso(r.endTime));
    OutcomeTame(r);
  }

  lemma {:induction false} IdentityTame(r: Record)
    ensures |Identity(r)| == 7 && forall i :: 0 <= i < 7 ==> Tame(Identity(r)[i])
  {
    hide Decimal, Signed, Free;
    NumbersUnquoted(r.sequence, 0);
    IdentityKeys();
  }

  lemma {:induction false} DetailsTame(r: Record, start: string, end: string)
    ensures |Details(r, start, end)| == 9 && forall i :: 0 <= i < 9 ==> Tame(Details(r, start, end)[i])
  {
    hide Decimal, Signed, Free;
    NumbersUnquoted(r.capacity, r.deviceType);
    NumbersUnquoted(r.passes, r.transport);
    NumbersUnquoted(0, r.sanitizer);
    NumbersUnquoted(0, r.pattern);
    DetailKeys();
    LongKeys();
  }

  lemma {:induction false} OutcomeTame(r: Record)
    ensures |Outcome(r)| == 5 && forall i :: 0 <= i < 5 ==> Tame(Outcome(r)[i])
  {
    hide Decimal, Signed, Free;
    NumbersUnquoted(0, r.sanitization);
    NumbersUnquoted(0, r.verification);
    OutcomeKeys();
    LongKeys();
    FlagIsPlain(r.verificationPassed);
  }

  lemma {:induction false} NumbersUnquoted(n: nat, i: int)
    ensures Free(Decimal(n), '"') && Free(Signed(i), '"')
  {
  }

  /** The validator reads, from the line of any record at all, the record's own hash field (or its previous-hash
      field), if and only if no text written before that field holds the key with its quotes. */
  lemma {:induction false} ReadsOwnFieldIff(r: Record, iso: int -> string, name: string)
    requires name == HASH_KEY || name == PREVIOUS_KEY
    ensures var fs, j := Fields(r, iso), OwnIndex(name);
      Find(Json(r, iso), KeyText(name)) == 1 + Offset(fs, j) <==> NoShadow(fs, j, name)
  {
    hide Front, Fields, Members, Find, KeyText, NoShadow, Free;
    FieldsBeforeHash(r, iso);
    HashNames();
    var fs, j := Fields(r, iso), OwnIndex(name);
    FindsOwnIff(fs, j, name);
    KeyStartsQuoted(name);
    BraceFirst(Members(fs), KeyText(name));
    assert Json(r, iso) == "{" + Members(fs);
    assert Find(Json(r, iso), KeyText(name)) == 1 + Find(Members(fs), KeyText(name));
  }

  lemma {:induction false} FieldsBeforeHash(r: Record, iso: int -> string)
    ensures var fs := Fields(r, iso);
      && |fs| == 24 && fs[21] == Quoted(PREVIOUS_KEY, r.previousHash) && fs[22] == Quoted(HASH_KEY, r.thisHash)
      && (forall i :: 0 <= i < 22 ==> Tame(fs[i]) && fs[i].key != HASH_KEY)
      && (forall i :: 0 <= i < 21 ==> fs[i].key != PREVIOUS_KEY)
  {
    hide Identity, Details, Outcome, Free;
    FrontTame(r, iso);
    FrontNames(r, iso);
    FieldsSplit(r, iso);
    HashNames();
    assert HASH_KEY != PREVIOUS_KEY by { assert |HASH_KEY| != |PREVIOUS_KEY|; }
  }

  lemma {:induction false} KeyStartsQuoted(name: string)
    ensures KeyText(name) != "" && KeyText(name)[0] == '"'
  {
  }

  /** And then it reads that field's value, cut to 64 characters, when the value has no quotes. */
  lemma {:induction false} ReadsOwnField(r: Record, iso: int -> string, name: string)
    requires name == HASH_KEY || name == PREVIOUS_KEY
    requires NoShadow(Fields(r, iso), OwnIndex(name), name)
    requires Free(Fields(r, iso)[OwnIndex(name)].value, '"')
    ensures ExtractHash(Json(r, iso), name) == Hash(Fit(Fields(r, iso)[OwnIndex(name)].value))
  {
    hide Fields, Members, Find, KeyText, NoShadow, Free, TakeHash, Offset;
    var fs, j, m := Fields(r, iso), OwnIndex(name), Members(Fields(r, iso));
    ReadsOwnFieldIff(r, iso, name);
    FieldsBeforeHash(r, iso);
    MembersAt(fs, j);
    FirstMember(fs[j..]);
    var k, key := Offset(fs, j), KeyText(name);
    FoundLater(m, k, key, 0, Hash(fs[j].value));
    TakesValue(m, key, k, fs[j].value);
  }

  lemma {:induction false} TakesValue(m: string, key: string, k: nat, v: string)
    requires FoundAt(m, key, k, Hash(v)) && Free(v, '"')
    ensures 1 + k + |key| <= |"{" + m| && TakeHash(("{" + m)[1 + k + |key|..], HASH_LENGTH) == Fit(v)
    ensures 1 + k < |"{" + m|
  {
    hide TakeHash, Free;
    assert ("{" + m)[1 + k + |key|..] == m[k + |key|..];
    HashBehindKey(m[k + |key|..], v);
  }

  lemma {:induction false} MembersAt(fs: seq<Field>, j: nat)
    requires j < |fs|
    ensures Offset(fs, j) <= |Members(fs)| && Members(fs)[Offset(fs, j)..] == Members(fs[j..])
    decreases j
  {
    hide Members, FieldText;
    MembersCons(fs);
    if j == 0 {
      assert fs[0..] == fs;
    } else {
      MembersAt(fs[1..], j - 1);
      assert fs[1..][j - 1..] == fs[j..];
      var head := FieldText(fs[0]) + ",";
      assert Members(fs) == head + Members(fs[1..]);
      assert Members(fs)[|head| + Offset(fs[1..], j - 1)..] == Members(fs[1..])[Offset(fs[1..], j - 1)..];
    }
  }

  /** The validator reads, from the line of a loggable record, exactly the record's two hashes. */
  lemma {:induction false} ExtractsHashes(r: Record, iso: int -> string)
    requires Loggable(r, iso)
    ensures ExtractHash(Json(r, iso), HASH_KEY) == Hash(r.thisHash)
    ensures ExtractHash(Json(r, iso), PREVIOUS_KEY) == Hash(r.previousHash)
  {
    hide Fields, Json, ExtractHash, NoShadow;
    FieldsBeforeHash(r, iso);
    KeysDiffer();
    ReadsOwnField(r, iso, HASH_KEY);
    ReadsOwnField(r, iso, PREVIOUS_KEY);
  }

  lemma {:induction false} KeysDiffer()
    ensures HASH_KEY != PREVIOUS_KEY
  {
    assert |HASH_KEY| != |PREVIOUS_KEY|;
  }

  /** A text without quotes holds no key. */
  lemma {:induction false} NoQuotesNoShadow(f: Field, name: string)
    requires Free(f.value, '"') && Name(name)
    ensures !Shadows(f, name)
  {
    var q, key := QuotedValue(f), KeyText(name);
    KeyNotEmpty(name);
    assert key[0] == key[|name| + 1] == key[|name| + 3] == '"';
    forall i | 0 < i < |q| - 1 ensures q[i] != '"' {
      assert q[i] == f.value[i - 1];
    }
    forall i ensures !OccursAt(q, key, i) {
      if 0 <= i && i + |key| <= |q| {
        assert q[i + |name| + 1] == q[i..i + |key|][|name| + 1];
      }
    }
  }

  /** Plain text everywhere is enough to be loggable. */
  lemma {:induction false} PlainIsLoggable(r: Record, iso: int -> string)
    requires InBounds(r) && |iso(r.startTime)| < 32 && |iso(r.endTime)| < 32 && OneLine(r.notes)
    requires forall i :: 0 <= i < 23 ==> Plain(Fields(r, iso)[i].value)
    ensures Loggable(r, iso)
  {
    hide NoShadow, Shadows, Free, InBounds;
    var fs := Fields(r, iso);
    HashNames();
    forall name, j | j <= 23 && Name(name) ensures NoShadow(fs, j, name) {
      PlainUpTo(fs, j, name);
    }
    PlainTexts(r, iso);
  }

  lemma {:induction false} PlainUpTo(fs: seq<Field>, j: nat, name: string)
    requires j <= |fs| && Name(name) && forall i :: 0 <= i < j ==> Plain(fs[i].value)
    ensures NoShadow(fs, j, name)
  {
    hide Shadows, Name, Free;
    forall i | 0 <= i < j ensures !Shadows(fs[i], name) {
      NoQuotesNoShadow(fs[i], name);
    }
  }

  lemma {:induction false} PlainTexts(r: Record, iso: int -> string)
    requires forall i :: 0 <= i < 23 ==> Plain(Fields(r, iso)[i].value)
    ensures Plain(r.caseId) && Plain(r.operationId) && Plain(r.deviceId) && Plain(r.devicePath)
    ensures Plain(r.deviceModel) && Plain(r.deviceSerial) && Plain(r.appVersion)
    ensures Plain(iso(r.startTime)) && Plain(iso(r.endTime))
    ensures Plain(r.preHash) && Plain(r.postHash) && Plain(r.previousHash) && Plain(r.thisHash)
  {
    hide Plain, Decimal, Signed;
    var fs := Fields(r, iso);
    assert fs[0].value == r.caseId && fs[1].value == r.operationId && fs[3].value == r.deviceId;
    assert fs[4].value == r.devicePath && fs[5].value == r.deviceModel && fs[6].value == r.deviceSerial;
    assert fs[13].value == r.appVersion && fs[14].value == iso(r.startTime) && fs[15].value == iso(r.endTime);
    assert fs[19].value == r.preHash && fs[20].value == r.postHash;
    assert fs[21].value == r.previousHash && fs[22].value == r.thisHash;
  }

  // ---------- the log as lines ----------

  /** Keys, punctuation and values add up: 30 characters a member beside its value. */
  lemma {:induction false} MembersFit(fs: seq<Field>, limit: nat)
    requires forall i :: 0 <= i < |fs| ==> Fits(fs[i], limit)
    ensures |Members(fs)| <= (limit + 30) * |fs| + 1
    ensures Free(Members(fs), '\n')
  {
    if fs != [] {
      MembersFit(fs[1..], limit);
      FieldTextFits(fs[0], limit);
      hide FieldText;
      assert (limit + 30) * |fs| == (limit + 30) * |fs[1..]| + (limit + 30);
    }
  }

  lemma {:induction false} FieldTextFits(f: Field, limit: nat)
    requires Fits(f, limit)
    ensures |FieldText(f)| <= limit + 29 && Free(FieldText(f), '\n')
  {
  }

  lemma {:induction false} MembersStep(f: Field, fs: seq<Field>)
    ensures Members([f] + fs) == FieldText(f) + (if fs == [] then "" else ",") + Members(fs)
  {
    assert ([f] + fs)[1..] == fs;
  }

  lemma {:induction false} MembersOfParts(a: seq<Field>, b: seq<Field>)
    requires b != [] && a != []
    ensures |Members(a + b)| <= |Members(a)| + |Members(b)|
    ensures Free(Members(a), '\n') && Free(Members(b), '\n') ==> Free(Members(a + b), '\n')
  {
    hide Free, Members, FieldText;
    var f, rest := a[0], a[1..];
    MembersStep(f, rest);
    MembersStep(f, rest + b);
    assert a == [f] + rest && a + b == [f] + (rest + b);
    if rest == [] {
      assert rest + b == b;
      LastPart(FieldText(f), Members(b));
    } else {
      MembersOfParts(rest, b);
      Separators(FieldText(f), Members(rest));
      Separators(FieldText(f), Members(rest + b));
    }
  }

  lemma {:induction false} LastPart(text: string, rest: string)
    ensures |text + "" + Members([])| == |text| + 1 && |text + "," + rest| == |text| + 1 + |rest|
    ensures Free(text + "" + Members([]), '\n') && Free(rest, '\n') ==> Free(text + "," + rest, '\n')
  {
    hide Free;
    MembersEnd(text);
    Separators(text, rest);
    FreeParts(text, "}", '\n');
  }

  lemma {:induction false} MembersEnd(text: string)
    ensures Members([]) == "}" && text + "" + Members([]) == text + "}"
  {
    assert text + "" == text;
  }

  lemma {:induction false} Separators(text: string, rest: string)
    ensures Free(text + "," + rest, '\n') <==> Free(text, '\n') && Free(rest, '\n')
  {
    FreeParts(text, ",", '\n');
    FreeParts(text + ",", rest, '\n');
  }

  lemma {:induction false} FreeParts(s: string, t: string, c: char)
    ensures Free(s + t, c) <==> Free(s, c) && Free(t, c)
  {
    if Free(s + t, c) {
      assert forall i :: 0 <= i < |s| ==> s[i] == (s + t)[i];
      assert forall i :: 0 <= i < |t| ==> t[i] == (s + t)[|s| + i];
    }
  }

  /** The line of a record fits the line buffers and is one line. */
  lemma {:induction false} JsonFits(r: Record, iso: int -> string)
    requires Loggable(r, iso)
    ensures 0 < |Json(r, iso)| < LINE_BUFFER - 1 && Free(Json(r, iso), '\n')
  {
    FrontFits(r, iso);
    HashesFit(r, iso);
    FieldsSplit(r, iso);
    hide Front, Hashes, Fields, Members;
    MembersFit(Front(r, iso), 255);
    MembersFit(Hashes(r), 511);
    assert |Hashes(r)| == 3 by { HashesAreThree(r); }
    MembersOfParts(Front(r, iso), Hashes(r));
    FreeParts("{", Members(Fields(r, iso)), '\n');
  }

  lemma {:induction false} HashesAreThree(r: Record)
    ensures |Hashes(r)| == 3
  {
  }

  /** The file after records are appended one by one. */
  function LogOf(file: string, rs: seq<Record>, iso: int -> string): string
    decreases |rs|
  {
    if rs == [] then file else LogOf(Append(file, rs[0], iso), rs[1..], iso)
  }

  function JsonLines(rs: seq<Record>, iso: int -> string): (lines: seq<string>)
    ensures |lines| == |rs|
  {
    if rs == [] then [] else [Json(rs[0], iso)] + JsonLines(rs[1..], iso)
  }

  ghost predicate AllLoggable(rs: seq<Record>, iso: int -> string) {
    forall i :: 0 <= i < |rs| ==> Loggable(rs[i], iso)
  }

  lemma {:induction false} NewlineAfter(line: string, rest: string)
    requires Free(line, '\n')
    ensures NewlineAt(line + "\n" + rest) == |line|
  {
    var s := line + "\n" + rest;
    if line != "" {
      assert s[1..] == line[1..] + "\n" + rest;
      NewlineAfter(line[1..], rest);
    }
  }

  lemma {:induction false} FirstLine(line: string, rest: string)
    requires Free(line, '\n') && |line| < LINE_BUFFER - 1
    ensures Lines(line + "\n" + rest) == [line] + Lines(rest)
  {
    var s := line + "\n" + rest;
    NewlineAfter(line, rest);
    assert Chunk(s) == |line| + 1;
    assert s[..|line| + 1] == line + "\n" && s[|line| + 1..] == rest;
    assert Strip(line + "\n") == line;
    LinesCons(s);
  }

  /** A last line without a newline is read as it is. */
  lemma {:induction false} LastLineUnterminated(line: string)
    requires Free(line, '\n') && 0 < |line| < 8192
    ensures Lines(line) == [line]
  {
    assert NewlineAt(line) == |line|;
    LinesCons(line);
    assert line[..|line|] == line && line[|line|..] == "";
  }

  /** A line that does not fit the buffer is read in pieces of 8191 characters, each as a line of its own. */
  lemma {:induction false} LongLineIsCut(line: string, rest: string)
    requires Free(line, '\n') && |line| == 8191
    ensures Lines(line + rest) == [line] + Lines(rest)
  {
    var s := line + rest;
    assert forall i :: 0 <= i < 8191 ==> s[i] == line[i];
    assert NewlineAt(s) >= 8191;
    LinesCons(s);
    assert s[..8191] == line && s[8191..] == rest;
  }

  /** A file whose last line is complete. */
  ghost predicate Complete(file: string) {
    forall rest :: Lines(file + rest) == Lines(file) + Lines(rest)
  }

  lemma {:induction false} LineCompletes(file: string, line: string)
    requires Complete(file) && Free(line, '\n') && |line| < LINE_BUFFER - 1
    ensures Complete(file + line + "\n") && Lines(file + line + "\n") == Lines(file) + [line]
  {
    EmptyFile();
    hide Lines, Free;
    var longer := file + line + "\n";
    forall rest
      ensures Lines(longer + rest) == Lines(file) + ([line] + Lines(rest))
    {
      FirstLine(line, rest);
      assert longer + rest == file + (line + "\n" + rest);
    }
    assert Lines(longer) == Lines(file) + [line] by {
      assert longer + "" == longer;
      assert [line] + [] == [line];
    }
    forall rest
      ensures Lines(longer + rest) == Lines(longer) + Lines(rest)
    {
      assert Lines(file) + ([line] + Lines(rest)) == Lines(file) + [line] + Lines(rest);
    }
  }

  lemma {:induction false} AppendCompletes(file: string, r: Record, iso: int -> string)
    requires Complete(file) && Loggable(r, iso)
    ensures Complete(Append(file, r, iso)) && Lines(Append(file, r, iso)) == Lines(file) + [Json(r, iso)]
  {
    JsonFits(r, iso);
    hide Json, Lines, Complete;
    LineCompletes(file, Json(r, iso));
  }

  lemma {:induction false} EmptyFile()
    ensures Lines("") == [] && Complete("")
  {
    forall rest ensures Lines("" + rest) == Lines("") + Lines(rest) {
      assert "" + rest == rest;
    }
  }

  /** The lines of a log are the JSON texts of the records appended to it. */
  lemma {:induction false} LinesOfLog(file: string, rs: seq<Record>, iso: int -> string)
    requires Complete(file) && AllLoggable(rs, iso)
    ensures Lines(LogOf(file, rs, iso)) == Lines(file) + JsonLines(rs, iso)
    decreases |rs|
  {
    hide *;
    if |rs| == 0 {
      NoRecords(file, iso);
    } else {
      var r, rest := rs[0], rs[1..];
      RestLoggable(rs, iso);
      AppendCompletes(file, r, iso);
      JsonLinesCons(rs, iso);
      LogOfCons(file, rs, iso);
      LinesOfLog(Append(file, r, iso), rest, iso);
      Associate(Lines(file), Json(r, iso), JsonLines(rest, iso));
    }
  }

  lemma {:induction false} Associate(a: seq<string>, b: string, c: seq<string>)
    ensures a + [b] + c == a + ([b] + c)
  {
  }

  lemma {:induction false} NoRecords(file: string, iso: int -> string)
    ensures Lines(LogOf(file, [], iso)) == Lines(file) + JsonLines([], iso)
  {
    assert Lines(file) + [] == Lines(file);
  }

  lemma {:induction false} RestLoggable(rs: seq<Record>, iso: int -> string)
    requires rs != [] && AllLoggable(rs, iso)
    ensures Loggable(rs[0], iso) && AllLoggable(rs[1..], iso)
  {
  }

  lemma {:induction false} JsonLinesCons(rs: seq<Record>, iso: int -> string)
    requires rs != []
    ensures JsonLines(rs, iso) == [Json(rs[0], iso)] + JsonLines(rs[1..], iso)
  {
  }

  lemma {:induction false} LogOfCons(file: string, rs: seq<Record>, iso: int -> string)
    requires rs != []
    ensures LogOf(file, rs, iso) == LogOf(Append(file, rs[0], iso), rs[1..], iso)
  {
  }

  // ---------- the verdict ----------

  /** All that the validator looks at in a record. */
  datatype Link = Link(previous: string, hash: string)

  function Links(rs: seq<Record>): (ls: seq<Link>)
    ensures |ls| == |rs|
    ensures forall i :: 0 <= i < |rs| ==> ls[i] == Link(rs[i].previousHash, rs[i].thisHash)
  {
    seq(|rs|, i requires 0 <= i < |rs| => Link(rs[i].previousHash, rs[i].thisHash))
  }

  function LastHash(ls: seq<Link>, i: nat, last: string): string
    requires i <= |ls|
  {
    if i == 0 then last else ls[i - 1].hash
  }

  /** What the validator checks of a log: whole hashes, and each record naming the hash before it. */
  ghost predicate LinkedFrom(ls: seq<Link>, last: string, first: bool) {
    forall i :: 0 <= i < |ls| ==> LinkedAt(ls, last, first, i)
  }

  ghost predicate LinkedAt(ls: seq<Link>, last: string, first: bool, i: nat)
    requires i < |ls|
  {
    |ls[i].hash| == 64 && ((i == 0 && first) || ls[i].previous == LastHash(ls, i, last))
  }

  ghost predicate Linked(ls: seq<Link>) {
    LinkedFrom(ls, "", true)
  }

  function TextOf(x: Extract): string {
    match x case Missing => "" case Hash(text) => text
  }

  /** What the validator takes from a line: a field that is missing counts as empty. */
  function LinkOf(line: string): Link {
    Link(TextOf(ExtractHash(line, PREVIOUS_KEY)), TextOf(ExtractHash(line, HASH_KEY)))
  }

  /** The links of the lines that are not empty. */
  function LineLinks(lines: seq<string>): seq<Link> {
    if lines == [] then []
    else (if lines[0] == "" then [] else [LinkOf(lines[0])]) + LineLinks(lines[1..])
  }

  lemma {:induction false} ChecksLine(s: Scan, line: string)
    requires line != "" && s.ok
    ensures var t, link := CheckLine(s, line), LinkOf(line);
      && t.count == s.count + 1
      && (t.ok <==> |link.hash| == 64 && (s.count == 0 || link.previous == s.last))
      && (t.ok ==> t.last == link.hash)
  {
    hide ExtractHash;
  }

  lemma {:induction false} LineLinksCons(lines: seq<string>)
    requires lines != []
    ensures lines[0] == "" ==> LineLinks(lines) == LineLinks(lines[1..])
    ensures lines[0] != "" ==> LineLinks(lines) == [LinkOf(lines[0])] + LineLinks(lines[1..])
  {
    hide LinkOf;
    if lines[0] == "" {
      assert [] + LineLinks(lines[1..]) == LineLinks(lines[1..]);
    }
  }

  lemma {:induction false} LinkedCons(ls: seq<Link>, last: string, first: bool)
    requires ls != []
    ensures LinkedFrom(ls, last, first) <==>
      && |ls[0].hash| == 64 && (first || ls[0].previous == last)
      && LinkedFrom(ls[1..], ls[0].hash, false)
  {
    hide LinkedAt;
    var t := ls[1..];
    forall i | 0 <= i < |t| ensures LinkedAt(t, ls[0].hash, false, i) <==> LinkedAt(ls, last, first, i + 1) {
      LinkedAtNext(ls, last, first, i);
    }
    LinkedAtFirst(ls, last, first);
    if LinkedAt(ls, last, first, 0) && LinkedFrom(t, ls[0].hash, false) {
      forall i | 0 <= i < |ls| ensures LinkedAt(ls, last, first, i) {
        if i > 0 {
          assert LinkedAt(t, ls[0].hash, false, i - 1);
        }
      }
    }
    if LinkedFrom(ls, last, first) {
      forall i | 0 <= i < |t| ensures LinkedAt(t, ls[0].hash, false, i) {
        assert LinkedAt(ls, last, first, i + 1);
      }
    }
  }

  lemma {:induction false} LinkedAtNext(ls: seq<Link>, last: string, first: bool, i: nat)
    requires i + 1 < |ls|
    ensures LinkedAt(ls[1..], ls[0].hash, false, i) <==> LinkedAt(ls, last, first, i + 1)
  {
  }

  lemma {:induction false} LinkedAtFirst(ls: seq<Link>, last: string, first: bool)
    requires ls != []
    ensures LinkedAt(ls, last, first, 0) <==> |ls[0].hash| == 64 && (first || ls[0].previous == last)
  {
  }

  lemma {:induction false} ChecksLines(s: Scan, lines: seq<string>)
    requires s.ok
    ensures var t, ls := CheckLines(s, lines), LineLinks(lines);
      && (t.ok <==> LinkedFrom(ls, s.last, s.count == 0))
      && (if ls == [] then t.count == s.count else t.count > s.count)
    decreases |lines|
  {
    hide CheckLine, LinkedFrom, LinkOf;
    if lines == [] {
      NothingLinked(s.last, s.count == 0);
    } else {
      LineLinksCons(lines);
      if lines[0] == "" {
        BlankLine(s);
        ChecksLines(s, lines[1..]);
      } else {
        ChecksLine(s, lines[0]);
        LinkedCons(LineLinks(lines), s.last, s.count == 0);
        var t := CheckLine(s, lines[0]);
        if t.ok {
          ChecksLines(t, lines[1..]);
        }
      }
    }
  }

  lemma {:induction false} NothingLinked(last: string, first: bool)
    ensures LinkedFrom([], last, first)
  {
  }

  /** The exact verdict on any file: EMPTY without a line that is not empty, VALID when every such line holds a hash
      of 64 characters and all but the first name, as the previous hash, the hash of the one before. */
  lemma {:induction false} VerdictOnLines(lines: seq<string>)
    ensures var ls := LineLinks(lines);
      Verdict(lines) == if ls == [] then Empty else if Linked(ls) then Valid else Tampered
  {
    hide CheckLines, LineLinks, LinkedFrom;
    ChecksLines(Scan("", 0, true), lines);
  }

  lemma {:induction false} LinkOfRecord(r: Record, iso: int -> string)
    requires Loggable(r, iso)
    ensures Json(r, iso) != "" && LinkOf(Json(r, iso)) == Link(r.previousHash, r.thisHash)
  {
    ExtractsHashes(r, iso);
    hide ExtractHash, Members;
  }

  lemma {:induction false} LinksOfRecords(rs: seq<Record>, iso: int -> string)
    requires AllLoggable(rs, iso)
    ensures LineLinks(JsonLines(rs, iso)) == Links(rs)
    decreases |rs|
  {
    hide Loggable, AllLoggable, LinkOf, Json;
    if rs != [] {
      RestLoggable(rs, iso);
      LinkOfRecord(rs[0], iso);
      JsonLinesCons(rs, iso);
      LinksOfRecords(rs[1..], iso);
      LineLinksCons(JsonLines(rs, iso));
      assert JsonLines(rs, iso)[1..] == JsonLines(rs[1..], iso);
      assert Links(rs) == [Link(rs[0].previousHash, rs[0].thisHash)] + Links(rs[1..]);
    }
  }

  function StatusOf(rs: seq<Record>, iso: int -> string): Status {
    Verdict(Lines(LogOf("", rs, iso)))
  }

  /** The exact verdict on a log file written from records: nothing but the two hash fields matters. */
  lemma {:induction false} VerdictOnLog(rs: seq<Record>, iso: int -> string)
    requires AllLoggable(rs, iso)
    ensures StatusOf(rs, iso) == if rs == [] then Empty else if Linked(Links(rs)) then Valid else Tampered
  {
    EmptyFile();
    LinesOfLog("", rs, iso);
    assert [] + JsonLines(rs, iso) == JsonLines(rs, iso);
    LinksOfRecords(rs, iso);
    VerdictOnLines(JsonLines(rs, iso));
    hide Lines, JsonLines, LogOf, LinkedFrom, Loggable, AllLoggable, Verdict;
  }

  // ---------- tampering ----------

  /** The links of a finalised chain. */
  ghost predicate ChainLinks(ls: seq<Link>) {
    forall i :: 0 <= i < |ls| ==> ls[i].previous == LastHash(ls, i, "") && |ls[i].hash| == HASH_LENGTH
  }

  lemma {:induction false} LinksOfChain(rs: seq<Record>, sha: Sha)
    requires Chain(rs, sha) && HexForm(sha)
    ensures ChainLinks(Links(rs))
  {
    var ls := Links(rs);
    forall i | 0 <= i < |ls|
      ensures ls[i].previous == LastHash(ls, i, "") && |ls[i].hash| == HASH_LENGTH
    {
      assert Sealed(rs[i], HashBefore(rs, i), sha);
    }
  }

  /** The log written from a finalised chain is VALID. */
  lemma {:induction false} ChainValidates(rs: seq<Record>, iso: int -> string, sha: Sha)
    requires Chain(rs, sha) && HexForm(sha) && AllLoggable(rs, iso) && rs != []
    ensures StatusOf(rs, iso) == Valid
  {
    LinksOfChain(rs, sha);
    VerdictOnLog(rs, iso);
    hide AllLoggable, StatusOf, Chain;
  }

  function Without<T>(s: seq<T>, k: nat): (r: seq<T>)
    requires k < |s|
    ensures |r| == |s| - 1
    ensures forall i :: 0 <= i < |r| ==> r[i] == if i < k then s[i] else s[i + 1]
  {
    s[..k] + s[k + 1..]
  }

  lemma {:induction false} DroppedLink(ls: seq<Link>, k: nat)
    requires ChainLinks(ls) && k < |ls| && |ls| >= 2
    ensures Linked(Without(ls, k)) <==> k == 0 || k == |ls| - 1 || ls[k].hash == ls[k - 1].hash
  {
    hide LinkedAt, ChainLinks, Without;
    var t := Without(ls, k);
    assert |t| == |ls| - 1 by { WithoutLength(ls, k); }
    forall i | 0 <= i < |t|
      ensures LinkedAt(t, "", true, i) <==> i != k || k == 0 || ls[k].hash == ls[k - 1].hash
    {
      DroppedLinkAt(ls, k, i);
    }
    if Linked(t) && 0 < k < |ls| - 1 {
      assert LinkedAt(t, "", true, k);
    }
  }

  lemma {:induction false} WithoutLength<T>(s: seq<T>, k: nat)
    requires k < |s|
    ensures |Without(s, k)| == |s| - 1
  {
  }

  /** Only the link over the gap can break. */
  lemma {:induction false} DroppedLinkAt(ls: seq<Link>, k: nat, i: nat)
    requires ChainLinks(ls) && k < |ls| && i < |ls| - 1
    ensures |Without(ls, k)| == |ls| - 1
    ensures LinkedAt(Without(ls, k), "", true, i) <==> i != k || k == 0 || ls[k].hash == ls[k - 1].hash
  {
    var t, j := Without(ls, k), if i < k then i else i + 1;
    assert t[i] == ls[j] && ls[j].previous == LastHash(ls, j, "") && |ls[j].hash| == HASH_LENGTH;
    if 0 < i {
      assert t[i - 1] == ls[if i - 1 < k then i - 1 else i];
    }
  }

  lemma {:induction false} WithoutLoggable(rs: seq<Record>, k: nat, iso: int -> string)
    requires AllLoggable(rs, iso) && k < |rs|
    ensures AllLoggable(Without(rs, k), iso) && Links(Without(rs, k)) == Without(Links(rs), k)
  {
    hide Loggable;
    var t, ls := Without(rs, k), Links(rs);
    forall i | 0 <= i < |t|
      ensures Loggable(t[i], iso) && Links(t)[i] == Without(ls, k)[i]
    {
      var j := if i < k then i else i + 1;
      assert Loggable(rs[j], iso) && ls[j] == Link(rs[j].previousHash, rs[j].thisHash);
    }
  }

  /** A record dropped from a chain is noticed, if and only if it is neither the first nor the last and its
      hash differs from its predecessor's: the ends of the log can be cut off unseen. */
  lemma {:induction false} DroppedRecord(rs: seq<Record>, k: nat, iso: int -> string, sha: Sha)
    requires Chain(rs, sha) && HexForm(sha) && AllLoggable(rs, iso) && k < |rs| && |rs| >= 2
    ensures StatusOf(Without(rs, k), iso) == Tampered
       <==> 0 < k < |rs| - 1 && rs[k].thisHash != rs[k - 1].thisHash
  {
    LinksOfChain(rs, sha);
    DroppedLink(Links(rs), k);
    WithoutLoggable(rs, k, iso);
    VerdictOnLog(Without(rs, k), iso);
    hide AllLoggable, StatusOf, Chain, Linked, ChainLinks;
  }

  function Swapped<T>(s: seq<T>, i: nat, j: nat): (r: seq<T>)
    requires i < |s| && j < |s|
    ensures |r| == |s|
    ensures forall k :: 0 <= k < |r| ==> r[k] == if k == j then s[i] else if k == i then s[j] else s[k]
  {
    s[i := s[j]][j := s[i]]
  }

  ghost predicate DistinctHashes(ls: seq<Link>) {
    forall i, j :: 0 <= i < j < |ls| ==> ls[i].hash != ls[j].hash
  }

  lemma {:induction false} SwappedLinks(ls: seq<Link>, i: nat, j: nat)
    requires ChainLinks(ls) && i < j < |ls| && DistinctHashes(ls)
    ensures !Linked(Swapped(ls, i, j))
  {
    var t := Swapped(ls, i, j);
    assert t[j] == ls[i];
    assert Linked(t) ==> LinkedAt(t, "", true, j);
    assert LastHash(t, j, "") == if j - 1 == i then ls[j].hash else ls[j - 1].hash;
    assert t[j].previous == LastHash(ls, i, "");
    assert t[j].previous != LastHash(t, j, "");
  }

  lemma {:induction false} SwappedLoggable(rs: seq<Record>, i: nat, j: nat, iso: int -> string)
    requires AllLoggable(rs, iso) && i < |rs| && j < |rs|
    ensures AllLoggable(Swapped(rs, i, j), iso) && Links(Swapped(rs, i, j)) == Swapped(Links(rs), i, j)
  {
    hide Loggable;
  }

  /** Two records of a chain exchanged are always noticed when the hashes are distinct. */
  lemma {:induction false} SwappedRecords(rs: seq<Record>, i: nat, j: nat, iso: int -> string, sha: Sha)
    requires Chain(rs, sha) && HexForm(sha) && AllLoggable(rs, iso) && i < j < |rs| && DistinctHashes(Links(rs))
    ensures StatusOf(Swapped(rs, i, j), iso) == Tampered
  {
    LinksOfChain(rs, sha);
    SwappedLinks(Links(rs), i, j);
    SwappedLoggable(rs, i, j, iso);
    VerdictOnLog(Swapped(rs, i, j), iso);
    hide AllLoggable, StatusOf, Chain, Linked, ChainLinks, DistinctHashes;
  }

  /** The header says that every hash is derived again. It is not: any field other than the two hashes
      can be rewritten, in any record, without a change of the verdict. */
  lemma {:induction false} EditsGoUnnoticed(rs: seq<Record>, ss: seq<Record>, iso: int -> string)
    requires AllLoggable(rs, iso) && AllLoggable(ss, iso) && Links(rs) == Links(ss)
    ensures StatusOf(rs, iso) == StatusOf(ss, iso)
  {
    VerdictOnLog(rs, iso);
    VerdictOnLog(ss, iso);
    hide AllLoggable, StatusOf, Linked;
  }
}
