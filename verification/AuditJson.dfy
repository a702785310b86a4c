/**
 The JSON text of an audit record, read back by a parser of its own: an object of string, number and
 boolean members, without escapes (RFC 8259, sections 4 to 7).
 */
module AuditJson {
  import opened AuditRecords
  import opened AuditLogs

  datatype Value = Text(text: string) | Number(n: int) | Flag(b: bool) | NoValue

  datatype Member = Member(name: string, value: Value)

  datatype Document = Malformed | Object(members: seq<Member>)

  // ---------- the parser ----------

  predicate Digits(s: string) {
    s != "" && forall i :: 0 <= i < |s| ==> '0' <= s[i] <= '9'
  }

  function DigitsValue(s: string): int
    requires s == "" || Digits(s)
  {
    if s == "" then 0 else 10 * DigitsValue(s[..|s| - 1]) + (s[|s| - 1] as int - '0' as int)
  }

  function Scalar(s: string): Value {
    if s == "true" then Flag(true)
    else if s == "false" then Flag(false)
    else if Digits(s) then Number(DigitsValue(s))
    else if s != "" && s[0] == '-' && Digits(s[1..]) then Number(-DigitsValue(s[1..]))
    else NoValue
  }

  /** The first quote, or the end. */
  function QuoteAt(s: string): (k: nat)
    ensures k <= |s|
  {
    if s == "" || s[0] == '"' then 0 else 1 + QuoteAt(s[1..])
  }

  /** The first comma or closing brace, or the end. */
  function StopAt(s: string): (k: nat)
    ensures k <= |s|
  {
    if s == "" || s[0] == ',' || s[0] == '}' then 0 else 1 + StopAt(s[1..])
  }

  /** A member is read; after it comes the end of the object or another. */
  function Close(m: Member, after: string): Document
    decreases |after|, 0
  {
    if m.value.NoValue? then Malformed
    else if after == "}" then Object([m])
    else if after != "" && after[0] == ',' then
      match ParseMembers(after[1..]) case Malformed => Malformed case Object(ms) => Object([m] + ms)
    else Malformed
  }

  /** A value, up to its end. */
  function ParseValue(name: string, s: string): Document
    decreases |s|, 1
  {
    if s != "" && s[0] == '"' then
      var k := QuoteAt(s[1..]);
      if k + 1 == |s| then Malformed else Close(Member(name, Text(s[1..k + 1])), s[k + 2..])
    else
      Close(Member(name, Scalar(s[..StopAt(s)])), s[StopAt(s)..])
  }

  /** A name between quotes, a colon, and a value. */
  function ParseMembers(s: string): Document
    decreases |s|, 2
  {
    if s == "" || s[0] != '"' then Malformed
    else
      var k := QuoteAt(s[1..]);
      if k + 2 >= |s| || s[k + 2] != ':' then Malformed else ParseValue(s[1..k + 1], s[k + 3..])
  }

  function ParseObject(s: string): Document {
    if s != "" && s[0] == '{' then ParseMembers(s[1..]) else Malformed
  }

  // ---------- what it reads from the members of a line ----------

  /** The member's text says this name and value. */
  ghost predicate Says(f: Field, m: Member) {
    && f.key == m.name && Free(f.key, '"') && Free(f.value, '"')
    && match f
       case Quoted(_, value) => m.value == Text(value)
       case Bare(_, value) => Free(value, ',') && Free(value, '}') && m.value == Scalar(value) != NoValue
  }

  lemma {:induction false} QuoteBehind(a: string, rest: string)
    requires Free(a, '"') && rest != "" && rest[0] == '"'
    ensures QuoteAt(a + rest) == |a|
  {
    if a == "" {
      assert a + rest == rest;
    } else {
      assert (a + rest)[1..] == a[1..] + rest;
      QuoteBehind(a[1..], rest);
    }
  }

  lemma {:induction false} StopBehind(a: string, rest: string)
    requires Free(a, ',') && Free(a, '}') && rest != "" && (rest[0] == ',' || rest[0] == '}')
    ensures StopAt(a + rest) == |a|
  {
    if a == "" {
      assert a + rest == rest;
    } else {
      assert (a + rest)[1..] == a[1..] + rest;
      StopBehind(a[1..], rest);
    }
  }

  /** The text of a member, its name, colon and value apart. */
  function ValueText(f: Field): string {
    match f case Quoted(_, value) => "\"" + value + "\"" case Bare(_, value) => value
  }

  lemma {:induction false} ParsesName(f: Field, tail: string)
    requires Free(f.key, '"')
    ensures ParseMembers(FieldText(f) + tail) == ParseValue(f.key, ValueText(f) + tail)
  {
    hide ParseValue, FieldText, ValueText, QuoteAt;
    var rest := "\":" + (ValueText(f) + tail);
    NameFirst(f, tail);
    QuoteBehind(f.key, rest);
    NameParts(f.key, ValueText(f) + tail);
  }

  lemma {:induction false} NameFirst(f: Field, tail: string)
    ensures FieldText(f) + tail == "\"" + (f.key + ("\":" + (ValueText(f) + tail)))
  {
    var key, v := f.key, ValueText(f);
    assert FieldText(f) == "\"" + key + "\":" + v;
    assert "\"" + key + "\":" + v + tail == "\"" + (key + ("\":" + (v + tail)));
  }

  lemma {:induction false} NameParts(key: string, value: string)
    ensures var s := "\"" + (key + ("\":" + value));
      && s != "" && s[0] == '"' && s[1..] == key + ("\":" + value) && |s| == |key| + |value| + 3
      && s[|key| + 2 - 1] == '"' && s[|key| + 2] == ':' && s[1..|key| + 1] == key && s[|key| + 3..] == value
  {
    var s := "\"" + (key + ("\":" + value));
    assert s == ("\"" + key) + "\":" + value;
    assert s[|key| + 2] == ("\"" + key + "\":")[|key| + 2];
  }

  lemma {:induction false} ParsesValue(f: Field, m: Member, tail: string)
    requires Says(f, m) && tail != "" && (tail[0] == ',' || tail[0] == '}')
    ensures ParseValue(f.key, ValueText(f) + tail) == Close(m, tail)
  {
    hide Close;
    var s := ValueText(f) + tail;
    match f {
      case Quoted(_, value) =>
        var rest := "\"" + tail;
        assert s[1..] == value + rest;
        QuoteBehind(value, rest);
        assert s[1..|value| + 1] == value && s[|value| + 2..] == tail;
      case Bare(_, value) =>
        StopBehind(value, tail);
        NotQuoted(value);
        assert s[..|value|] == value && s[|value|..] == tail;
    }
  }

  /** A scalar is not empty and does not begin with a quote. */
  lemma {:induction false} NotQuoted(value: string)
    requires Scalar(value) != NoValue
    ensures value != "" && value[0] != '"'
  {
  }

  /** The parser reads all members, in order, and nothing else. */
  lemma {:induction false} ParsesAll(fs: seq<Field>, ms: seq<Member>)
    requires fs != [] && |fs| == |ms| && forall i :: 0 <= i < |fs| ==> Says(fs[i], ms[i])
    ensures ParseMembers(Members(fs)) == Object(ms)
    decreases |fs|
  {
    hide ParseMembers, ParseValue, Says, Members;
    MembersCons(fs);
    var tail := AfterMember(fs);
    assert Says(fs[0], ms[0]);
    SaysSomething(fs[0], ms[0]);
    ParsesName(fs[0], tail);
    ParsesValue(fs[0], ms[0], tail);
    if |fs| == 1 {
      LastTail(fs);
      assert ms == [ms[0]];
    } else {
      ParsesAll(fs[1..], ms[1..]);
      assert tail[1..] == Members(fs[1..]);
      assert ms == [ms[0]] + ms[1..];
    }
  }

  lemma {:induction false} LastTail(fs: seq<Field>)
    requires |fs| == 1
    ensures AfterMember(fs) == "}"
  {
  }

  lemma {:induction false} SaysSomething(f: Field, m: Member)
    requires Says(f, m)
    ensures !m.value.NoValue? && Free(f.key, '"')
  {
  }

  // ---------- numbers ----------

  lemma {:induction false} DecimalSays(n: nat)
    ensures Digits(Decimal(n)) && DigitsValue(Decimal(n)) == n
  {
    if n >= 10 {
      DecimalSays(n / 10);
      assert Decimal(n)[..|Decimal(n)| - 1] == Decimal(n / 10);
    } else {
      assert Decimal(n)[..0] == "";
    }
  }

  lemma {:induction false} NotAWord(s: string)
    requires Digits(s) || (s != "" && s[0] == '-')
    ensures s != "true" && s != "false"
  {
    assert s[0] != 't' && s[0] != 'f';
  }

  lemma {:induction false} NumberSays(key: string, n: nat)
    requires Free(key, '"')
    ensures Says(Bare(key, Decimal(n)), Member(key, Number(n)))
  {
    hide Decimal, DigitsValue;
    DecimalSays(n);
    NotAWord(Decimal(n));
  }

  lemma {:induction false} SignedSays(key: string, i: int)
    requires Free(key, '"')
    ensures Says(Bare(key, Signed(i)), Member(key, Number(i)))
  {
    hide Decimal, DigitsValue;
    if i >= 0 {
      NumberSays(key, i);
    } else {
      DecimalSays(-i);
      NotAWord(Signed(i));
      assert Signed(i)[1..] == Decimal(-i);
      assert !Digits(Signed(i));
    }
  }

  lemma {:induction false} FlagSays(key: string, b: bool)
    requires Free(key, '"')
    ensures Says(Bare(key, if b then "true" else "false"), Member(key, Flag(b)))
  {
    assert "false" != "true" by { assert |"false"| != |"true"|; }
  }

  lemma {:induction false} TextSays(key: string, text: string)
    requires Free(key, '"') && Free(text, '"')
    ensures Says(Quoted(key, text), Member(key, Text(text)))
  {
  }

  // ---------- the members of a record ----------

  /** What the JSON text of a record is to say. */
  function RecordMembers(r: Record, start: string, end: string): (ms: seq<Member>)
    ensures |ms| == 24
  {
    [Member("case_id", Text(r.caseId)), Member("operation_id", Text(r.operationId)),
     Member("sequence_number", Number(r.sequence)), Member("device_id", Text(r.deviceId)),
     Member("device_path", Text(r.devicePath)), Member("device_model", Text(r.deviceModel)),
     Member("device_serial", Text(r.deviceSerial))]
    + [Member("device_capacity_bytes", Number(r.capacity)), Member("device_type", Number(r.deviceType)),
       Member("transport_type", Number(r.transport)), Member("method", Number(r.sanitizer)),
       Member("pattern", Number(r.pattern)), Member("passes", Number(r.passes)),
       Member("app_version", Text(r.appVersion)), Member("start_time", Text(start)), Member("end_time", Text(end))]
    + [Member("sanitization_result", Number(r.sanitization)),
       Member("verification_result_code", Number(r.verification)),
       Member("verification_passed", Flag(r.verificationPassed)),
       Member("pre_hash_sha256", Text(r.preHash)), Member("post_hash_sha256", Text(r.postHash))]
    + [Member("previous_record_hash", Text(r.previousHash)), Member("this_record_hash", Text(r.thisHash)),
       Member("notes", Text(r.notes))]
  }

  /** No text of the record holds a quote. */
  ghost predicate Unquoted(r: Record, iso: int -> string) {
    && Free(r.caseId, '"') && Free(r.operationId, '"') && Free(r.deviceId, '"') && Free(r.devicePath, '"')
    && Free(r.deviceModel, '"') && Free(r.deviceSerial, '"') && Free(r.appVersion, '"')
    && Free(r.preHash, '"') && Free(r.postHash, '"') && Free(r.previousHash, '"') && Free(r.thisHash, '"')
    && Free(r.notes, '"') && Free(iso(r.startTime), '"') && Free(iso(r.endTime), '"')
  }

  lemma {:induction false} IdentitySays(r: Record, iso: int -> string, ms: seq<Member>)
    requires Unquoted(r, iso) && ms == RecordMembers(r, iso(r.startTime), iso(r.endTime))
    ensures |Identity(r)| == 7 && forall i :: 0 <= i < 7 ==> Says(Identity(r)[i], ms[i])
  {
    hide Says, Decimal, Signed, Free;
    IdentityKeys();
    TextSays("case_id", r.caseId);
    TextSays("operation_id", r.operationId);
    NumberSays("sequence_number", r.sequence);
    TextSays("device_id", r.deviceId);
    TextSays("device_path", r.devicePath);
    TextSays("device_model", r.deviceModel);
    TextSays("device_serial", r.deviceSerial);
  }

  lemma {:induction false} DetailsSay(r: Record, iso: int -> string, ms: seq<Member>)
    requires Unquoted(r, iso) && ms == RecordMembers(r, iso(r.startTime), iso(r.endTime))
    ensures var d := Details(r, iso(r.startTime), iso(r.endTime));
      |d| == 9 && forall i :: 0 <= i < 9 ==> Says(d[i], ms[7 + i])
  {
    hide Says, Decimal, Signed, Free;
    DetailKeys();
    LongKeys();
    NumberSays("device_capacity_bytes", r.capacity);
    SignedSays("device_type", r.deviceType);
    SignedSays("transport_type", r.transport);
    SignedSays("method", r.sanitizer);
    SignedSays("pattern", r.pattern);
    NumberSays("passes", r.passes);
    TextSays("app_version", r.appVersion);
    TextSays("start_time", iso(r.startTime));
    TextSays("end_time", iso(r.endTime));
  }

  lemma {:induction false} OutcomeSays(r: Record, iso: int -> string, ms: seq<Member>)
    requires Unquoted(r, iso) && ms == RecordMembers(r, iso(r.startTime), iso(r.endTime))
    ensures |Outcome(r)| == 5 && forall i :: 0 <= i < 5 ==> Says(Outcome(r)[i], ms[16 + i])
  {
    hide Says, Decimal, Signed, Free;
    OutcomeKeys();
    LongKeys();
    SignedSays("sanitization_result", r.sanitization);
    SignedSays("verification_result_code", r.verification);
    FlagSays("verification_passed", r.verificationPassed);
    TextSays("pre_hash_sha256", r.preHash);
    TextSays("post_hash_sha256", r.postHash);
  }

  lemma {:induction false} HashesSay(r: Record, iso: int -> string, ms: seq<Member>)
    requires Unquoted(r, iso) && ms == RecordMembers(r, iso(r.startTime), iso(r.endTime))
    ensures |Hashes(r)| == 3 && forall i :: 0 <= i < 3 ==> Says(Hashes(r)[i], ms[21 + i])
  {
    hide Says, Free;
    HashKeys();
    TextSays("previous_record_hash", r.previousHash);
    TextSays("this_record_hash", r.thisHash);
    TextSays("notes", r.notes);
  }

  /** A JSON parser reads from the text of a record whose texts hold no quotes exactly the record's 24 members,
      each under its name, with its own value: every text, number and flag comes back. */
  lemma {:induction false} JsonSaysRecord(r: Record, iso: int -> string)
    requires Unquoted(r, iso)
    ensures ParseObject(Json(r, iso)) == Object(RecordMembers(r, iso(r.startTime), iso(r.endTime)))
  {
    hide Says, Identity, Details, Outcome, Hashes, RecordMembers, ParseMembers, Members, Unquoted;
    var ms := RecordMembers(r, iso(r.startTime), iso(r.endTime));
    IdentitySays(r, iso, ms);
    DetailsSay(r, iso, ms);
    OutcomeSays(r, iso, ms);
    HashesSay(r, iso, ms);
    var fs := Fields(r, iso);
    ParsesAll(fs, ms);
    assert Json(r, iso)[1..] == Members(fs);
  }
}
