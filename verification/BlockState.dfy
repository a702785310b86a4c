/** The block-state serializer: a fixed header in the byte order of a little-endian host, then the format data. */
module BlockStates {
  import opened Bytes

  const MAGIC: nat := 0x424C4B53
  const HEADER: nat := 73
  const NAME_LENGTH: nat := 32

  datatype State = State(
    blockNumber: nat,
    confidence: nat,
    validation: nat,
    fileType: seq<Byte>,
    formatData: seq<Byte>,
    offsetInFile: nat,
    crc: nat,
    crcValid: bool)

  datatype Outcome = Ok | InvalidArg | NoMemory

  /** The widths of the structure's fields. */
  ghost predicate InBounds(s: State) {
    && s.blockNumber < TWO64 && s.confidence < TWO32 && s.validation < TWO32
    && |s.fileType| == NAME_LENGTH && s.offsetInFile < TWO64 && s.crc < TWO32
    && HEADER + |s.formatData| < TWO64
  }

  // ---------- little-endian numbers ----------

  function Range(k: nat): nat {
    if k == 0 then 1 else 256 * Range(k - 1)
  }

  function ToBytesLE(n: nat, k: nat): (s: seq<Byte>)
    ensures |s| == k
  {
    if k == 0 then [] else [n % 256] + ToBytesLE(n / 256, k - 1)
  }

  function FromBytesLE(s: seq<Byte>): nat {
    if s == [] then 0 else s[0] + 256 * FromBytesLE(s[1..])
  }

  lemma {:induction false} NumberRoundTrip(n: nat, k: nat)
    requires n < Range(k)
    ensures FromBytesLE(ToBytesLE(n, k)) == n
  {
    if k > 0 {
      NumberRoundTrip(n / 256, k - 1);
    }
  }

  lemma {:induction false} LowByte(low: Byte, high: nat)
    ensures (low + 256 * high) % 256 == low && (low + 256 * high) / 256 == high
  {
  }

  lemma {:induction false} BytesRoundTripLE(s: seq<Byte>)
    ensures ToBytesLE(FromBytesLE(s), |s|) == s && FromBytesLE(s) < Range(|s|)
  {
    if s != [] {
      BytesRoundTripLE(s[1..]);
      LowByte(s[0], FromBytesLE(s[1..]));
      assert s == [s[0]] + s[1..];
    }
  }

  lemma {:induction false} Widths()
    ensures Range(1) == 0x100 && Range(4) == TWO32 && Range(8) == TWO64
  {
    assert Range(2) == 0x1_0000;
    assert Range(4) == 256 * (256 * Range(2));
    assert Range(6) == 256 * (256 * Range(4));
    assert Range(8) == 256 * (256 * Range(6));
  }

  /** Byte `i` is the i-th digit to the base 256, the least significant first. */
  lemma {:induction false} LittleEndian(n: nat, k: nat, i: nat)
    requires i < k
    ensures Range(i) > 0 && ToBytesLE(n, k)[i] == n / Range(i) % 256
  {
    if i > 0 {
      LittleEndian(n / 256, k - 1, i - 1);
      RangeStep(n, i);
    }
  }

  lemma {:induction false} RangeStep(n: nat, i: nat)
    requires i > 0 && Range(i - 1) > 0
    ensures Range(i) == 256 * Range(i - 1) && n / 256 / Range(i - 1) == n / Range(i)
  {
    var r := Range(i - 1);
    DivideTwice(n, r);
  }

  lemma {:induction false} DivideTwice(n: nat, r: nat)
    requires r > 0
    ensures n / 256 / r == n / (256 * r)
  {
    var a, b := n / 256, n % 256;
    var q, s := a / r, a % r;
    assert a == q * r + s;
    assert n == 256 * a + b == (256 * r) * q + (256 * s + b);
    assert 256 * s + b < 256 * r;
    QuotientOf(n, 256 * r, q, 256 * s + b);
  }

  lemma {:induction false} QuotientOf(x: nat, d: nat, q: nat, r: nat)
    requires r < d && x == d * q + r
    ensures x / d == q
  {
    var p, s := x / d, x % d;
    assert x == d * p + s;
    assert d * (q - p) == s - r;
    assert q - p >= 1 ==> d * (q - p) >= d;
    assert p - q >= 1 ==> d * (p - q) >= d;
  }

  // ---------- the format ----------

  function Flag(b: bool): Byte { if b then 1 else 0 }

  /** The header's fields in order. */
  function Header(s: State): (h: seq<Byte>)
    requires |s.fileType| == NAME_LENGTH
    ensures |h| == HEADER
  {
    ToBytesLE(MAGIC, 4) + ToBytesLE(s.blockNumber, 8) + ToBytesLE(s.confidence, 4) + ToBytesLE(s.validation, 4)
    + s.fileType + ToBytesLE(s.offsetInFile, 8) + ToBytesLE(s.crc, 4) + [Flag(s.crcValid)]
    + ToBytesLE(|s.formatData|, 8)
  }

  function Encode(s: State): (e: seq<Byte>)
    requires |s.fileType| == NAME_LENGTH
    ensures |e| == HEADER + |s.formatData|
  {
    Header(s) + s.formatData
  }

  function NumberAt(b: seq<Byte>, offset: nat, k: nat): nat
    requires offset + k <= |b|
  {
    FromBytesLE(b[offset..offset + k])
  }

  /** The fields that a header shows, with no format data yet. */
  function HeaderOf(b: seq<Byte>): State
    requires |b| >= HEADER
  {
    State(NumberAt(b, 4, 8), NumberAt(b, 12, 4), NumberAt(b, 16, 4), b[20..52], [],
          NumberAt(b, 52, 8), NumberAt(b, 60, 4), b[64] != 0)
  }

  /** The buffer holds a header whenever its magic number matches. */
  ghost predicate Readable(b: seq<Byte>) {
    |b| >= 4 && NumberAt(b, 0, 4) == MAGIC ==> |b| >= HEADER
  }

  /** Memory that begins with a buffer of `size` bytes and goes on for a header at least: the code tests the
      size for the magic number and the format data, and reads the header without a test. */
  predicate HasBuffer(memory: seq<Byte>, size: nat) {
    size <= |memory| && HEADER <= |memory|
  }

  predicate HasMagic(memory: seq<Byte>, size: nat)
    requires HasBuffer(memory, size)
  {
    size >= 4 && NumberAt(memory, 0, 4) == MAGIC
  }

  /** Deserialisation: the outcome and, past the magic number, the state. The length test is made in
      64 bits; an allocation that passes it by wrapping cannot be met. */
  function Decode(memory: seq<Byte>, size: nat): (Outcome, State)
    requires HasBuffer(memory, size)
  {
    var none := State(0, 0, 0, [], [], 0, 0, false);
    if !HasMagic(memory, size) then (InvalidArg, none)
    else
      var s, length := HeaderOf(memory), NumberAt(memory, 65, 8);
      if length == 0 then (Ok, s)
      else if (HEADER + length) % TWO64 > size then (InvalidArg, s)
      else if HEADER + length > size then (NoMemory, s)
      else (Ok, s.(formatData := memory[HEADER..HEADER + length]))
  }

  /** How far the code reads: nothing, the magic number, the header, or the format data too. */
  function ReadEnd(memory: seq<Byte>, size: nat): nat
    requires HasBuffer(memory, size)
  {
    if size < 4 then 0
    else if !HasMagic(memory, size) then 4
    else HEADER + |Decode(memory, size).1.formatData|
  }

  lemma {:induction false} SameFront(b: seq<Byte>, beyond: seq<Byte>, offset: nat, k: nat)
    requires offset + k <= |b|
    ensures NumberAt(b + beyond, offset, k) == NumberAt(b, offset, k)
  {
    assert (b + beyond)[offset..offset + k] == b[offset..offset + k];
  }

  /** Every read lies in the buffer, whatever stands behind it in memory, if and only if a buffer with the
      magic number has room for the whole header. */
  lemma {:induction false} ReadsInBufferIffReadable(b: seq<Byte>)
    ensures (forall beyond :: HasBuffer(b + beyond, |b|) ==> ReadEnd(b + beyond, |b|) <= |b|) <==> Readable(b)
  {
    forall beyond | HasBuffer(b + beyond, |b|) && |b| >= 4
      ensures NumberAt(b + beyond, 0, 4) == NumberAt(b, 0, 4)
    {
      SameFront(b, beyond, 0, 4);
    }
    if !Readable(b) {
      var beyond: seq<Byte> := seq(HEADER, _ => 0);
      assert HasBuffer(b + beyond, |b|);
      assert NumberAt(b + beyond, 0, 4) == MAGIC;
      assert ReadEnd(b + beyond, |b|) > |b|;
    }
  }

  /** Then outcome and state depend on the buffer only. */
  lemma {:induction false} ReadableIsDetermined(b: seq<Byte>, m: seq<Byte>, n: seq<Byte>)
    requires Readable(b) && HasBuffer(b + m, |b|) && HasBuffer(b + n, |b|)
    ensures Decode(b + m, |b|) == Decode(b + n, |b|)
  {
    hide FromBytesLE;
    if |b| >= 4 {
      SameFront(b, m, 0, 4);
      SameFront(b, n, 0, 4);
      if NumberAt(b, 0, 4) == MAGIC {
        SameHeader(b, m);
        SameHeader(b, n);
      }
    }
  }

  lemma {:induction false} SameHeader(b: seq<Byte>, m: seq<Byte>)
    requires |b| >= HEADER
    ensures HeaderOf(b + m) == HeaderOf(b) && NumberAt(b + m, 65, 8) == NumberAt(b, 65, 8)
    ensures forall e :: HEADER <= e <= |b| ==> (b + m)[HEADER..e] == b[HEADER..e]
  {
    hide FromBytesLE, NumberAt;
    SameFront(b, m, 4, 8);
    SameFront(b, m, 12, 4);
    SameFront(b, m, 16, 4);
    SameFront(b, m, 52, 8);
    SameFront(b, m, 60, 4);
    SameFront(b, m, 65, 8);
    assert (b + m)[20..52] == b[20..52];
  }

  /** A buffer with the magic number that ends before the format length: what stands behind it decides whether
      it is accepted. */
  lemma {:induction false} ShortBufferIsArbitrary(b: seq<Byte>)
    requires 4 <= |b| <= 65 && NumberAt(b, 0, 4) == MAGIC
    ensures exists m, n :: HasBuffer(b + m, |b|) && HasBuffer(b + n, |b|)
                        && Decode(b + m, |b|).0 == Ok && Decode(b + n, |b|).0 == InvalidArg
  {
    hide FromBytesLE;
    var m: seq<Byte> := seq(HEADER - |b|, _ => 0);
    var n: seq<Byte> := m[65 - |b| := 1];
    SameFront(b, m, 0, 4);
    SameFront(b, n, 0, 4);
    assert (b + m)[65..73] == [0, 0, 0, 0, 0, 0, 0, 0];
    assert (b + n)[65..73] == [1, 0, 0, 0, 0, 0, 0, 0];
    SmallLengths();
  }

  lemma {:induction false} SmallLengths()
    ensures FromBytesLE([0, 0, 0, 0, 0, 0, 0, 0]) == 0 && FromBytesLE([1, 0, 0, 0, 0, 0, 0, 0]) == 1
  {
    assert FromBytesLE([]) == 0 && FromBytesLE([0]) == 0;
    assert FromBytesLE([0, 0]) == 0;
    assert FromBytesLE([0, 0, 0, 0]) == 0 by {
      assert [0, 0, 0, 0][1..][1..] == [0, 0];
    }
    assert FromBytesLE([0, 0, 0, 0, 0, 0]) == 0 by {
      assert [0, 0, 0, 0, 0, 0][1..][1..] == [0, 0, 0, 0];
    }
    assert FromBytesLE([0, 0, 0, 0, 0, 0, 0]) == 0 by {
      assert [0, 0, 0, 0, 0, 0, 0][1..] == [0, 0, 0, 0, 0, 0];
    }
    assert [0, 0, 0, 0, 0, 0, 0, 0][1..] == [1, 0, 0, 0, 0, 0, 0, 0][1..] == [0, 0, 0, 0, 0, 0, 0];
  }

  // ---------- round trips ----------

  /** The first four bytes are the text `SKLB`. */
  lemma {:induction false} StartsWithMagic(s: State)
    requires |s.fileType| == NAME_LENGTH
    ensures Encode(s)[..4] == Ascii("SKLB")
  {
    hide Header;
    MagicBytes(s);
  }

  lemma {:induction false} MagicBytes(s: State)
    requires |s.fileType| == NAME_LENGTH
    ensures Header(s)[..4] == ToBytesLE(MAGIC, 4) == Ascii("SKLB")
  {
    MagicText();
    LengthsLE(s);
    hide ToBytesLE;
    var rest := Header(s)[4..];
    assert Header(s) == ToBytesLE(MAGIC, 4) + rest;
  }

  lemma {:induction false} MagicText()
    ensures ToBytesLE(MAGIC, 4) == Ascii("SKLB")
  {
    assert ToBytesLE(MAGIC, 4) == [MAGIC % 256] + ToBytesLE(MAGIC / 256, 3);
    assert ToBytesLE(MAGIC / 256, 3) == [MAGIC / 256 % 256] + ToBytesLE(MAGIC / 0x1_0000, 2);
    assert ToBytesLE(MAGIC / 0x1_0000, 2) == [MAGIC / 0x1_0000 % 256] + ToBytesLE(MAGIC / 0x100_0000, 1);
    assert ToBytesLE(MAGIC / 0x100_0000, 1) == [MAGIC / 0x100_0000 % 256] + ToBytesLE(0, 0);
  }

  /** When deserialisation refuses a buffer, and with which code. */
  lemma {:induction false} DecodeOutcome(memory: seq<Byte>, size: nat)
    requires HasBuffer(memory, size)
    ensures var length, code := NumberAt(memory, 65, 8), Decode(memory, size).0;
      && (code == InvalidArg <==>
            size < 4 || memory[..4] != Ascii("SKLB") || (length > 0 && (73 + length) % TWO64 > size))
      && (code == Ok <==>
            size >= 4 && memory[..4] == Ascii("SKLB") && (length == 0 || 73 + length <= size))
      && (code == Ok ==> (Decode(memory, size).1.crcValid <==> memory[64] != 0))
  {
    MagicIs(memory);
    hide FromBytesLE;
  }

  lemma {:induction false} MagicIs(memory: seq<Byte>)
    requires |memory| >= 4
    ensures NumberAt(memory, 0, 4) == MAGIC <==> memory[..4] == Ascii("SKLB")
  {
    var none := seq(NAME_LENGTH, _ => 0);
    MagicBytes(State(0, 0, 0, none, [], 0, 0, false));
    BytesRoundTripLE(memory[..4]);
    Widths();
    NumberRoundTrip(MAGIC, 4);
    hide ToBytesLE, FromBytesLE, Range;
    assert memory[0..0 + 4] == memory[..4];
  }

  /** Each field lies at its offset. */
  lemma {:induction false} HeaderFields(b: seq<Byte>, s: State)
    requires |s.fileType| == NAME_LENGTH && |b| >= HEADER
    ensures Header(s) <= b <==>
      && b[0..4] == ToBytesLE(MAGIC, 4) && b[4..12] == ToBytesLE(s.blockNumber, 8)
      && b[12..16] == ToBytesLE(s.confidence, 4) && b[16..20] == ToBytesLE(s.validation, 4)
      && b[20..52] == s.fileType && b[52..60] == ToBytesLE(s.offsetInFile, 8)
      && b[60..64] == ToBytesLE(s.crc, 4) && b[64..65] == [Flag(s.crcValid)]
      && b[65..73] == ToBytesLE(|s.formatData|, 8)
  {
    hide ToBytesLE;
    var p1 := ToBytesLE(MAGIC, 4) + ToBytesLE(s.blockNumber, 8);
    var p2 := p1 + ToBytesLE(s.confidence, 4) + ToBytesLE(s.validation, 4);
    var p3 := p2 + s.fileType + ToBytesLE(s.offsetInFile, 8);
    var p4 := p3 + ToBytesLE(s.crc, 4) + [Flag(s.crcValid)];
    LengthsLE(s);
    assert Header(s) == p4 + ToBytesLE(|s.formatData|, 8);
    assert Header(s) <= b <==> At(b, 0, Header(s));
    AtConcat(b, 0, p4, ToBytesLE(|s.formatData|, 8));
    AtConcat(b, 0, p3 + ToBytesLE(s.crc, 4), [Flag(s.crcValid)]);
    AtConcat(b, 0, p3, ToBytesLE(s.crc, 4));
    AtConcat(b, 0, p2 + s.fileType, ToBytesLE(s.offsetInFile, 8));
    AtConcat(b, 0, p2, s.fileType);
    AtConcat(b, 0, p1 + ToBytesLE(s.confidence, 4), ToBytesLE(s.validation, 4));
    AtConcat(b, 0, p1, ToBytesLE(s.confidence, 4));
    AtConcat(b, 0, ToBytesLE(MAGIC, 4), ToBytesLE(s.blockNumber, 8));
  }

  lemma {:induction false} LengthsLE(s: State)
    ensures |ToBytesLE(MAGIC, 4)| == |ToBytesLE(s.confidence, 4)| == |ToBytesLE(s.validation, 4)|
        == |ToBytesLE(s.crc, 4)| == 4
    ensures |ToBytesLE(s.blockNumber, 8)| == |ToBytesLE(s.offsetInFile, 8)| == |ToBytesLE(|s.formatData|, 8)| == 8
  {
  }

  /** Writing and reading restores every field, whatever follows in the buffer and behind it. */
  lemma {:induction false} StateRoundTrip(s: State, rest: seq<Byte>, size: nat)
    requires InBounds(s) && |Encode(s)| <= size <= |Encode(s) + rest|
    ensures Readable(Encode(s) + rest) && Decode(Encode(s) + rest, size) == (Ok, s)
  {
    hide Header, ToBytesLE, FromBytesLE;
    var b := Encode(s) + rest;
    HeaderInFront(s, rest);
    HeaderFields(b, s);
    NumbersFit(s);
    assert b[64] == b[64..65][0];
  }

  lemma {:induction false} HeaderInFront(s: State, rest: seq<Byte>)
    requires |s.fileType| == NAME_LENGTH
    ensures var b := Encode(s) + rest;
      && |b| == HEADER + |s.formatData| + |rest| && Header(s) <= b
      && b[HEADER..HEADER + |s.formatData|] == s.formatData
  {
    hide ToBytesLE;
    var h := Header(s);
    assert |h| == HEADER;
  }

  /** All the header's numbers fit their fields. */
  lemma {:induction false} NumbersFit(s: State)
    requires InBounds(s)
    ensures FromBytesLE(ToBytesLE(MAGIC, 4)) == MAGIC
    ensures FromBytesLE(ToBytesLE(s.blockNumber, 8)) == s.blockNumber
    ensures FromBytesLE(ToBytesLE(s.confidence, 4)) == s.confidence
    ensures FromBytesLE(ToBytesLE(s.validation, 4)) == s.validation
    ensures FromBytesLE(ToBytesLE(s.offsetInFile, 8)) == s.offsetInFile
    ensures FromBytesLE(ToBytesLE(s.crc, 4)) == s.crc
    ensures FromBytesLE(ToBytesLE(|s.formatData|, 8)) == |s.formatData|
  {
    hide ToBytesLE, FromBytesLE, Range;
    Widths();
    assert MAGIC < TWO32;
    NumberRoundTrip(MAGIC, 4);
    NumberRoundTrip(s.blockNumber, 8);
    NumberRoundTrip(s.confidence, 4);
    NumberRoundTrip(s.validation, 4);
    NumberRoundTrip(s.offsetInFile, 8);
    NumberRoundTrip(s.crc, 4);
    NumberRoundTrip(|s.formatData|, 8);
  }

  /** The header of what a header shows is that header, but for its validity byte. */
  lemma {:induction false} HeaderRoundTrip(b: seq<Byte>, s: State)
    requires |b| >= HEADER && NumberAt(b, 0, 4) == MAGIC && NumberAt(b, 65, 8) == |s.formatData|
    requires s == HeaderOf(b).(formatData := s.formatData)
    ensures |s.fileType| == NAME_LENGTH && (Header(s) <= b <==> b[64] <= 1)
  {
    hide Header, ToBytesLE, FromBytesLE, Range;
    HeaderFields(b, s);
    BytesRoundTripLE(b[0..4]);
    BytesRoundTripLE(b[4..12]);
    BytesRoundTripLE(b[12..16]);
    BytesRoundTripLE(b[16..20]);
    BytesRoundTripLE(b[52..60]);
    BytesRoundTripLE(b[60..64]);
    BytesRoundTripLE(b[65..73]);
    assert b[64..65] == [b[64]];
  }

  /** Reading and writing gives the same bytes back, if and only if the validity byte is 0 or 1: any
      other value reads as true and is written as 1. */
  lemma {:induction false} BytesRoundTripIffCanonicalFlag(b: seq<Byte>, size: nat)
    requires HasBuffer(b, size) && Decode(b, size).0 == Ok
    ensures |Decode(b, size).1.fileType| == NAME_LENGTH
    ensures Encode(Decode(b, size).1) <= b <==> b[64] <= 1
  {
    hide Header, FromBytesLE;
    var s := Decode(b, size).1;
    HeaderRoundTrip(b, s);
    EncodedIffHeader(b, s);
  }

  /** With the format data in their place, a buffer begins with the encoding exactly when it begins with the header. */
  lemma {:induction false} EncodedIffHeader(b: seq<Byte>, s: State)
    requires |s.fileType| == NAME_LENGTH && HEADER + |s.formatData| <= |b|
    requires b[HEADER..HEADER + |s.formatData|] == s.formatData
    ensures Encode(s) <= b <==> Header(s) <= b
  {
    hide Header;
    AtConcat(b, 0, Header(s), s.formatData);
  }

  // ---------- the buffer loops ----------

  /** `memcpy` to the moving pointer. */
  method Put(buf: array<Byte>, at: nat, bytes: seq<Byte>) returns (next: nat)
    requires at + |bytes| <= buf.Length
    modifies buf
    ensures next == at + |bytes|
    ensures buf[..next] == old(buf[..at]) + bytes
    ensures forall i :: next <= i < buf.Length ==> buf[i] == old(buf[i])
  {
    forall i | 0 <= i < |bytes| {
      buf[at + i] := bytes[i];
    }
    next := at + |bytes|;
    assert buf[..at] == old(buf[..at]);
  }

  /** The magic number, block number, confidence and validation. */
  method PutNumbers(s: State, buf: array<Byte>) returns (next: nat)
    requires HEADER <= buf.Length
    modifies buf
    ensures next == 20 && forall i :: next <= i < buf.Length ==> buf[i] == old(buf[i])
    ensures buf[..next]
        == ToBytesLE(MAGIC, 4) + ToBytesLE(s.blockNumber, 8) + ToBytesLE(s.confidence, 4) + ToBytesLE(s.validation, 4)
  {
    LengthsLE(s);
    hide ToBytesLE;
    var p := Put(buf, 0, ToBytesLE(MAGIC, 4));
    p := Put(buf, p, ToBytesLE(s.blockNumber, 8));
    p := Put(buf, p, ToBytesLE(s.confidence, 4));
    next := Put(buf, p, ToBytesLE(s.validation, 4));
  }

  /** File type, offset, checksum, flag and length. */
  method PutRest(s: State, buf: array<Byte>, start: nat) returns (next: nat)
    requires |s.fileType| == NAME_LENGTH && start == 20 && HEADER <= buf.Length
    modifies buf
    ensures next == HEADER && forall i :: next <= i < buf.Length ==> buf[i] == old(buf[i])
    ensures buf[..next] == old(buf[..start]) + s.fileType + ToBytesLE(s.offsetInFile, 8) + ToBytesLE(s.crc, 4)
                           + [Flag(s.crcValid)] + ToBytesLE(|s.formatData|, 8)
  {
    LengthsLE(s);
    hide ToBytesLE;
    var p := Put(buf, start, s.fileType);
    p := Put(buf, p, ToBytesLE(s.offsetInFile, 8));
    p := Put(buf, p, ToBytesLE(s.crc, 4));
    p := Put(buf, p, [Flag(s.crcValid)]);
    next := Put(buf, p, ToBytesLE(|s.formatData|, 8));
  }

  method Serialize(s: State, buf: array<Byte>) returns (outcome: Outcome, written: nat)
    requires |s.fileType| == NAME_LENGTH
    modifies buf
    ensures outcome == if buf.Length < HEADER + |s.formatData| then InvalidArg else Ok
    ensures outcome == Ok ==> written == HEADER + |s.formatData| && buf[..written] == Encode(s)
    ensures outcome == Ok ==> forall i :: written <= i < buf.Length ==> buf[i] == old(buf[i])
    ensures outcome != Ok ==> written == 0 && buf[..] == old(buf[..])
  {
    if buf.Length < HEADER + |s.formatData| {
      return InvalidArg, 0;
    }
    hide ToBytesLE;
    LengthsLE(s);
    var p := PutNumbers(s, buf);
    p := PutRest(s, buf, p);
    assert buf[..p] == Header(s);
    if |s.formatData| > 0 {
      p := Put(buf, p, s.formatData);
    }
    return Ok, p;
  }

  /** The caller's structure, whose fields deserialisation assigns one by one. */
  class BlockState {
    var blockNumber: nat
    var confidence: nat
    var validation: nat
    var fileType: seq<Byte>
    var formatData: seq<Byte>
    var offsetInFile: nat
    var crc: nat
    var crcValid: bool

    function Value(): State
      reads this
    {
      State(blockNumber, confidence, validation, fileType, formatData, offsetInFile, crc, crcValid)
    }

    /** Past the magic number the old contents are gone, whatever the outcome. The buffer is the first `size`
        bytes of `memory`. */
    method Deserialize(memory: seq<Byte>, size: nat) returns (outcome: Outcome)
      requires HasBuffer(memory, size)
      modifies this
      ensures outcome == Decode(memory, size).0
      ensures Value() == if HasMagic(memory, size) then Decode(memory, size).1 else old(Value())
    {
      if size < 4 || NumberAt(memory, 0, 4) != MAGIC {
        return InvalidArg;
      }
      formatData := [];
      blockNumber := NumberAt(memory, 4, 8);
      confidence := NumberAt(memory, 12, 4);
      validation := NumberAt(memory, 16, 4);
      fileType := memory[20..52];
      offsetInFile := NumberAt(memory, 52, 8);
      crc := NumberAt(memory, 60, 4);
      crcValid := memory[64] != 0;
      var length := NumberAt(memory, 65, 8);
      if length > 0 {
        if (HEADER + length) % TWO64 > size {
          return InvalidArg;
        }
        if HEADER + length > size {
          return NoMemory;
        }
        formatData := memory[HEADER..HEADER + length];
      }
      return Ok;
    }
  }
}
