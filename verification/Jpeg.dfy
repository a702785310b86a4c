/** The JPEG validator: its marker walk, an encoder for marker streams, and their agreement. */
module Jpeg {
  import opened Bytes

  const MARK: Byte := 0xFF
  const SOI: Byte := 0xD8
  const EOI: Byte := 0xD9
  const SOS: Byte := 0xDA

  /** Markers that the walk steps over as two bytes: the stuffed zero and the restart markers. */
  predicate Bare(marker: Byte) {
    marker == 0 || 0xD0 <= marker <= 0xD7
  }

  function Length(high: Byte, low: Byte): nat {
    high * 0x100 + low
  }

  // ---------- the walk ----------

  function Walk(d: seq<Byte>, offset: nat, hasSos: bool): (r: Parse)
    ensures r.Parsed?
    decreases |d| - offset
  {
    if offset + 1 >= |d| then Parsed(if hasSos then Promising else Invalid, offset)
    else if d[offset] != MARK then Walk(d, offset + 1, hasSos)
    else
      var marker := d[offset + 1];
      if Bare(marker) then Walk(d, offset + 2, hasSos)
      else if marker == EOI then Parsed(Validates, offset + 2)
      else if marker == SOS then Walk(d, offset + 2, true)
      else if offset + 3 >= |d| then Parsed(if hasSos then Promising else Invalid, offset)
      else Walk(d, offset + 2 + Length(d[offset + 2], d[offset + 3]), hasSos)
  }

  function Validation(d: seq<Byte>): Parse {
    if |d| < 4 || d[0] != MARK || d[1] != SOI then Unparsed else Walk(d, 2, false)
  }

  method Validate(d: seq<Byte>) returns (verdict: Verdict, parsedSize: nat)
    ensures verdict == (match Validation(d) case Unparsed => Invalid case Parsed(v, _) => v)
    ensures Validation(d).Parsed? ==> parsedSize == Validation(d).size
  {
    parsedSize := 0;
    if |d| < 4 {
      return Invalid, parsedSize;
    }
    if d[0] != MARK || d[1] != SOI {
      return Invalid, parsedSize;
    }
    var offset: nat := 2;
    var hasSos := false;
    while offset < |d| - 1
      invariant Walk(d, offset, hasSos) == Validation(d)
      decreases |d| - offset
    {
      if d[offset] != MARK {
        offset := offset + 1;
        continue;
      }
      var marker := d[offset + 1];
      if marker == 0x00 || (marker >= 0xD0 && marker <= 0xD7) {
        offset := offset + 2;
        continue;
      }
      if marker == EOI {
        return Validates, offset + 2;
      }
      if marker == SOS {
        hasSos := true;
        offset := offset + 2;
        continue;
      }
      if offset + 3 >= |d| {
        break;
      }
      var length := Length(d[offset + 2], d[offset + 3]);
      offset := offset + 2 + length;
    }
    return if hasSos then Promising else Invalid, offset;
  }

  // ---------- marker streams ----------

  /** What may stand between SOI and EOI. A segment's declared length counts its own two bytes; a
      declared length of 0 or 1 has no payload. */
  datatype Token =
    | Plain(b: Byte)
    | Stuffed(marker: Byte)
    | ScanStart
    | Segment(marker: Byte, length: nat, payload: seq<Byte>)

  ghost predicate WellFormed(t: Token) {
    match t
    case Plain(b) => b != 0xFF
    case Stuffed(marker) => marker == 0 || 0xD0 <= marker <= 0xD7
    case ScanStart => true
    case Segment(marker, length, payload) =>
      && marker != 0 && !(0xD0 <= marker <= 0xD7) && marker != 0xD9 && marker != 0xDA
      && length < 0x1_0000 && |payload| == if length < 2 then 0 else length - 2
  }

  ghost predicate AllWellFormed(ts: seq<Token>) {
    forall i :: 0 <= i < |ts| ==> WellFormed(ts[i])
  }

  ghost function EncodeToken(t: Token): seq<Byte>
    requires WellFormed(t)
  {
    match t
    case Plain(b) => [b]
    case Stuffed(marker) => [0xFF, marker]
    case ScanStart => [0xFF, 0xDA]
    case Segment(marker, length, payload) => [0xFF, marker, length / 0x100, length % 0x100] + payload
  }

  ghost function EncodeTokens(ts: seq<Token>): seq<Byte>
    requires AllWellFormed(ts)
  {
    if ts == [] then [] else EncodeToken(ts[0]) + EncodeTokens(ts[1..])
  }

  ghost function Encode(ts: seq<Token>): seq<Byte>
    requires AllWellFormed(ts)
  {
    [0xFF, 0xD8] + EncodeTokens(ts) + [0xFF, 0xD9]
  }

  // ---------- every stream is accepted ----------

  lemma {:induction false} WalksToken(d: seq<Byte>, offset: nat, hasSos: bool, t: Token)
    requires WellFormed(t) && At(d, offset, EncodeToken(t)) && offset + |EncodeToken(t)| < |d|
    ensures Walk(d, offset, hasSos) == Walk(d, offset + |EncodeToken(t)|, hasSos || t.ScanStart?)
  {
    var e := EncodeToken(t);
    var w := d[offset..offset + |e|];
    assert d[offset] == w[0];
    match t
    case Plain(_) =>
    case Stuffed(_) => assert d[offset + 1] == w[1];
    case ScanStart => assert d[offset + 1] == w[1];
    case Segment(marker, length, payload) =>
      assert d[offset + 1] == w[1] && d[offset + 2] == w[2] && d[offset + 3] == w[3];
      assert Length(d[offset + 2], d[offset + 3]) == length;
      if length < 2 {
        ShortLength(d, offset, hasSos);
      }
  }

  lemma {:induction false} EncodeCons(ts: seq<Token>)
    requires AllWellFormed(ts) && ts != []
    ensures AllWellFormed(ts[1..]) && EncodeTokens(ts) == EncodeToken(ts[0]) + EncodeTokens(ts[1..])
  {
  }

  ghost predicate Scanned(ts: seq<Token>) {
    exists i :: 0 <= i < |ts| && ts[i].ScanStart?
  }

  /** The walk reaches whatever follows the tokens. */
  lemma {:induction false} WalksTokens(d: seq<Byte>, offset: nat, hasSos: bool, ts: seq<Token>)
    requires AllWellFormed(ts) && At(d, offset, EncodeTokens(ts)) && offset + |EncodeTokens(ts)| < |d|
    ensures Walk(d, offset, hasSos) == Walk(d, offset + |EncodeTokens(ts)|, hasSos || Scanned(ts))
    decreases |ts|, 1
  {
    hide Walk, EncodeToken, WellFormed;
    if ts != [] {
      var first, rest := ts[0], ts[1..];
      EncodeCons(ts);
      AtConcat(d, offset, EncodeToken(first), EncodeTokens(rest));
      ScannedCons(ts);
      WalkOn(d, offset, hasSos, first, rest);
    }
  }

  lemma {:induction false} WalkOn(d: seq<Byte>, offset: nat, hasSos: bool, first: Token, rest: seq<Token>)
    requires WellFormed(first) && AllWellFormed(rest)
    requires At(d, offset, EncodeToken(first)) && At(d, offset + |EncodeToken(first)|, EncodeTokens(rest))
    requires offset + |EncodeToken(first)| + |EncodeTokens(rest)| < |d|
    ensures Walk(d, offset, hasSos)
         == Walk(d, offset + |EncodeToken(first)| + |EncodeTokens(rest)|, hasSos || first.ScanStart? || Scanned(rest))
    decreases |rest| + 1, 0
  {
    hide Walk, EncodeToken, WellFormed;
    WalksToken(d, offset, hasSos, first);
    WalksTokens(d, offset + |EncodeToken(first)|, hasSos || first.ScanStart?, rest);
  }

  lemma {:induction false} ScannedCons(ts: seq<Token>)
    requires ts != []
    ensures Scanned(ts) <==> ts[0].ScanStart? || Scanned(ts[1..])
  {
    if i :| 0 < i < |ts| && ts[i].ScanStart? {
      assert ts[1..][i - 1].ScanStart?;
    }
    if Scanned(ts[1..]) {
      var j :| 0 <= j < |ts[1..]| && ts[1..][j].ScanStart?;
      assert ts[j + 1].ScanStart?;
    }
  }

  lemma {:induction false} AcceptsStream(d: seq<Byte>, ts: seq<Token>)
    requires AllWellFormed(ts) && Encode(ts) <= d
    ensures Validation(d) == Parsed(Validates, |Encode(ts)|)
  {
    assert At(d, 0, Encode(ts));
    AtConcat(d, 0, [MARK, SOI] + EncodeTokens(ts), [MARK, EOI]);
    AtConcat(d, 0, [MARK, SOI], EncodeTokens(ts));
    assert d[0] == d[0..2][0] && d[1] == d[0..2][1];
    WalksTokens(d, 2, false, ts);
    var at := |Encode(ts)| - 2;
    assert d[at] == d[at..at + 2][0] && d[at + 1] == d[at..at + 2][1];
  }

  // ---------- only streams are accepted ----------

  /** A token of one or two bytes. */
  lemma {:induction false} ReadShortToken(d: seq<Byte>, offset: nat, hasSos: bool) returns (t: Token)
    requires offset + 1 < |d| && (d[offset] != MARK || Bare(d[offset + 1]) || d[offset + 1] == SOS)
    ensures WellFormed(t) && At(d, offset, EncodeToken(t)) && |EncodeToken(t)| > 0
    ensures Walk(d, offset, hasSos) == Walk(d, offset + |EncodeToken(t)|, hasSos || t.ScanStart?)
  {
    if d[offset] != MARK {
      t := Plain(d[offset]);
      assert d[offset..offset + 1] == [d[offset]];
    } else if Bare(d[offset + 1]) {
      t := Stuffed(d[offset + 1]);
      assert d[offset..offset + 2] == [MARK, d[offset + 1]];
    } else {
      t := ScanStart;
      assert d[offset..offset + 2] == [MARK, SOS];
    }
  }

  /** The token at the walk's offset, and where the walk goes on. */
  lemma {:induction false} ReadToken(d: seq<Byte>, offset: nat, hasSos: bool) returns (t: Token)
    requires offset + 1 < |d| && !(d[offset] == MARK && d[offset + 1] == EOI)
    requires Walk(d, offset, hasSos).verdict == Validates
    ensures WellFormed(t) && At(d, offset, EncodeToken(t)) && |EncodeToken(t)| > 0
    ensures Walk(d, offset, hasSos) == Walk(d, offset + |EncodeToken(t)|, hasSos || t.ScanStart?)
  {
    hide Walk, WellFormed, At, EncodeToken, Length;
    if d[offset] != MARK || Bare(d[offset + 1]) || d[offset + 1] == SOS {
      t := ReadShortToken(d, offset, hasSos);
    } else {
      WalkBehindSegment(d, offset, hasSos);
      t := ReadSegment(d, offset, Length(d[offset + 2], d[offset + 3]));
    }
  }

  /** A declared length below 2 sends the walk back over the length bytes, one at a time. */
  lemma {:induction false} ShortLength(d: seq<Byte>, offset: nat, hasSos: bool)
    requires offset + 4 < |d| && d[offset] == MARK && !Bare(d[offset + 1]) && d[offset + 1] != EOI
        && d[offset + 1] != SOS
    requires d[offset + 2] == 0 && d[offset + 3] < 2
    ensures Walk(d, offset, hasSos) == Walk(d, offset + 4, hasSos)
  {
    assert Walk(d, offset + 3, hasSos) == Walk(d, offset + 4, hasSos);
    assert d[offset + 3] == 0 ==> Walk(d, offset + 2, hasSos) == Walk(d, offset + 3, hasSos);
  }

  lemma {:induction false} ShortAtEnd(d: seq<Byte>, offset: nat, hasSos: bool)
    requires offset + 3 < |d| && d[offset] == MARK && !Bare(d[offset + 1]) && d[offset + 1] != EOI
        && d[offset + 1] != SOS
    requires Length(d[offset + 2], d[offset + 3]) < 2
    ensures d[offset + 2] == 0 && d[offset + 3] < 2
    ensures offset + 4 == |d| ==> Walk(d, offset, hasSos).verdict != Validates
  {
    assert offset + 4 == |d| ==> Walk(d, offset + 3, hasSos).verdict != Validates;
    assert d[offset + 3] == 0 ==> Walk(d, offset + 2, hasSos) == Walk(d, offset + 3, hasSos);
  }

  lemma {:induction false} ReadShortSegment(d: seq<Byte>, offset: nat) returns (t: Token)
    requires offset + 4 <= |d| && d[offset] == MARK && !Bare(d[offset + 1]) && d[offset + 1] != EOI
        && d[offset + 1] != SOS
    requires Length(d[offset + 2], d[offset + 3]) < 2
    ensures WellFormed(t) && !t.ScanStart? && At(d, offset, EncodeToken(t)) && |EncodeToken(t)| == 4
  {
    assert d[offset + 2] == 0;
    t := Segment(d[offset + 1], d[offset + 3], []);
    assert d[offset..offset + 4] == [MARK, d[offset + 1], 0, d[offset + 3]];
    assert EncodeToken(t) == [MARK, d[offset + 1], 0, d[offset + 3]];
  }

  lemma {:induction false} ReadLongSegment(d: seq<Byte>, offset: nat, length: nat) returns (t: Token)
    requires offset + 4 <= |d| && d[offset] == MARK && !Bare(d[offset + 1]) && d[offset + 1] != EOI
        && d[offset + 1] != SOS
    requires length == Length(d[offset + 2], d[offset + 3]) >= 2 && offset + 2 + length <= |d|
    ensures WellFormed(t) && !t.ScanStart? && At(d, offset, EncodeToken(t)) && |EncodeToken(t)| == 2 + length
  {
    var head := [MARK, d[offset + 1], d[offset + 2], d[offset + 3]];
    assert length / 0x100 == d[offset + 2] && length % 0x100 == d[offset + 3];
    assert d[offset..offset + 4] == head;
    var payload := d[offset + 4..offset + 2 + length];
    t := Segment(d[offset + 1], length, payload);
    AtConcat(d, offset, head, payload);
  }

  /** A marker with a length is only passed if the length, and the bytes it counts, are there. */
  lemma {:induction false} NeedsLength(d: seq<Byte>, offset: nat, hasSos: bool)
    requires offset + 1 < |d| && d[offset] == MARK
    requires !Bare(d[offset + 1]) && d[offset + 1] != EOI && d[offset + 1] != SOS
    requires Walk(d, offset, hasSos).verdict == Validates
    ensures offset + 3 < |d|
    ensures var next := offset + 2 + Length(d[offset + 2], d[offset + 3]);
      next < |d| && Walk(d, offset, hasSos) == Walk(d, next, hasSos)
  {
  }

  /** The segment token at an offset: short when its declared length is below 2. */
  lemma {:induction false} ReadSegment(d: seq<Byte>, offset: nat, length: nat) returns (t: Token)
    requires offset + 4 <= |d| && d[offset] == MARK && !Bare(d[offset + 1]) && d[offset + 1] != EOI
        && d[offset + 1] != SOS
    requires length == Length(d[offset + 2], d[offset + 3]) && (length >= 2 ==> offset + 2 + length <= |d|)
    ensures WellFormed(t) && !t.ScanStart? && At(d, offset, EncodeToken(t))
    ensures |EncodeToken(t)| == if length < 2 then 4 else 2 + length
  {
    hide EncodeToken, Bare, WellFormed, At;
    if length < 2 {
      t := ReadShortSegment(d, offset);
    } else {
      t := ReadLongSegment(d, offset, length);
    }
  }

  /** Where the walk goes on behind a segment. */
  lemma {:induction false} WalkBehindSegment(d: seq<Byte>, offset: nat, hasSos: bool)
    requires offset + 1 < |d| && d[offset] == MARK
    requires !Bare(d[offset + 1]) && d[offset + 1] != EOI && d[offset + 1] != SOS
    requires Walk(d, offset, hasSos).verdict == Validates
    ensures offset + 3 < |d|
    ensures var length := Length(d[offset + 2], d[offset + 3]);
      && (length >= 2 ==> offset + 2 + length <= |d|)
      && Walk(d, offset, hasSos) == Walk(d, offset + (if length < 2 then 4 else 2 + length), hasSos)
  {
    hide *;
    NeedsLength(d, offset, hasSos);
    if Length(d[offset + 2], d[offset + 3]) < 2 {
      ShortAtEnd(d, offset, hasSos);
      ShortLength(d, offset, hasSos);
    }
  }

  lemma {:induction false} ReadTokens(d: seq<Byte>, offset: nat, hasSos: bool) returns (ts: seq<Token>)
    requires Walk(d, offset, hasSos).verdict == Validates
    ensures AllWellFormed(ts) && At(d, offset, EncodeTokens(ts))
    ensures At(d, offset + |EncodeTokens(ts)|, [MARK, EOI])
    ensures Walk(d, offset, hasSos).size == offset + |EncodeTokens(ts)| + 2
    decreases |d| - offset
  {
    hide EncodeToken, WellFormed;
    if d[offset] == MARK && d[offset + 1] == EOI {
      ts := [];
      assert d[offset..offset + 2] == [MARK, EOI];
    } else {
      var first := ReadToken(d, offset, hasSos);
      var rest := ReadTokens(d, offset + |EncodeToken(first)|, hasSos || first.ScanStart?);
      ts := [first] + rest;
      EncodeCons(ts);
      AtConcat(d, offset, EncodeToken(first), EncodeTokens(rest));
    }
  }

  lemma {:induction false} ReadStream(d: seq<Byte>) returns (ts: seq<Token>)
    requires Validation(d).Parsed? && Validation(d).verdict == Validates
    ensures AllWellFormed(ts) && Encode(ts) <= d && Validation(d).size == |Encode(ts)|
  {
    ts := ReadTokens(d, 2, false);
    assert d[0..2] == [MARK, SOI];
    AtConcat(d, 0, [MARK, SOI], EncodeTokens(ts));
    AtConcat(d, 0, [MARK, SOI] + EncodeTokens(ts), [MARK, EOI]);
    assert At(d, 0, Encode(ts));
  }

  // ---------- main results ----------

  /** VALIDATES with size p, if and only if the first p bytes are a marker stream from SOI to EOI. */
  lemma {:induction false} ValidatesIffStream(d: seq<Byte>, p: nat)
    ensures Validation(d) == Parsed(Validates, p)
       <==> exists ts :: AllWellFormed(ts) && Encode(ts) <= d && |Encode(ts)| == p
  {
    if Validation(d) == Parsed(Validates, p) {
      var ts := ReadStream(d);
    }
    if ts :| AllWellFormed(ts) && Encode(ts) <= d && |Encode(ts)| == p {
      AcceptsStream(d, ts);
    }
  }

  /** The verdict depends on the carved bytes only: whatever follows them, or nothing. */
  lemma {:induction false} VerdictIsLocal(d: seq<Byte>, p: nat, suffix: seq<Byte>)
    requires Validation(d) == Parsed(Validates, p)
    ensures p <= |d| && Validation(d[..p] + suffix) == Parsed(Validates, p)
  {
    var ts := ReadStream(d);
    AcceptsStream(d[..p] + suffix, ts);
  }

  // ---------- streams that are cut off ----------

  /** No whole token stands here: there is no second byte, or a marker whose length, or what that counts, is not
      all there. */
  ghost predicate Stops(d: seq<Byte>, e: nat) {
    || e + 1 >= |d|
    || (&& d[e] == 0xFF && d[e + 1] != 0 && !(0xD0 <= d[e + 1] <= 0xD7) && d[e + 1] != 0xD9 && d[e + 1] != 0xDA
        && (e + 3 >= |d|
            || var length := d[e + 2] as int * 256 + d[e + 3]; e + 2 + length > |d| || (length < 2 && e + 4 == |d|)))
  }

  /** The size reported there: that place, or where the segment that is cut off would end; a length below two leads
      back to the last byte. */
  ghost function StopSize(d: seq<Byte>, e: nat): nat {
    if e + 3 >= |d| then e
    else
      var length := d[e + 2] as int * 256 + d[e + 3];
      if e + 2 + length > |d| then e + 2 + length else |d| - 1
  }

  /** The walk stops where no token is whole, with what has been scanned so far. */
  ghost predicate CutOff(d: seq<Byte>, e: nat, r: Parse, scanned: bool) {
    Stops(d, e) && r == Parsed(if scanned then Promising else Invalid, StopSize(d, e))
  }

  lemma {:induction false} ReadToEnd(d: seq<Byte>, offset: nat, hasSos: bool) returns (ts: seq<Token>)
    requires Walk(d, offset, hasSos).verdict != Validates && offset <= |d|
    ensures AllWellFormed(ts) && At(d, offset, EncodeTokens(ts))
    ensures CutOff(d, offset + |EncodeTokens(ts)|, Walk(d, offset, hasSos), hasSos || Scanned(ts))
    decreases |d| - offset
  {
    hide EncodeToken, WellFormed, CutOff;
    if Stops(d, offset) {
      ts := [];
      StopsThere(d, offset, hasSos);
    } else {
      var first := PassToken(d, offset, hasSos);
      var rest := ReadToEnd(d, offset + |EncodeToken(first)|, hasSos || first.ScanStart?);
      ts := [first] + rest;
      EncodeCons(ts);
      ScannedCons(ts);
      AtConcat(d, offset, EncodeToken(first), EncodeTokens(rest));
    }
  }

  lemma {:induction false} StopsThere(d: seq<Byte>, offset: nat, hasSos: bool)
    requires Stops(d, offset)
    ensures CutOff(d, offset, Walk(d, offset, hasSos), hasSos)
  {
    if offset + 3 < |d| && Length(d[offset + 2], d[offset + 3]) < 2 {
      assert d[offset + 2] == 0;
      assert Walk(d, offset + 3, hasSos) == Parsed(if hasSos then Promising else Invalid, offset + 3);
      assert d[offset + 3] == 0 ==> Walk(d, offset + 2, hasSos) == Walk(d, offset + 3, hasSos);
    }
  }

  /** The whole token at an offset where the walk does not stop. */
  lemma {:induction false} PassToken(d: seq<Byte>, offset: nat, hasSos: bool) returns (t: Token)
    requires !Stops(d, offset) && Walk(d, offset, hasSos).verdict != Validates
    ensures WellFormed(t) && At(d, offset, EncodeToken(t)) && |EncodeToken(t)| > 0
    ensures Walk(d, offset, hasSos) == Walk(d, offset + |EncodeToken(t)|, hasSos || t.ScanStart?)
  {
    hide WellFormed, At, EncodeToken;
    if d[offset] != MARK || Bare(d[offset + 1]) || d[offset + 1] == SOS {
      t := ReadShortToken(d, offset, hasSos);
    } else {
      assert d[offset + 1] != EOI;
      var length := Length(d[offset + 2], d[offset + 3]);
      t := ReadSegment(d, offset, length);
      if length < 2 {
        assert d[offset + 2] == 0;
        ShortLength(d, offset, hasSos);
      }
    }
  }

  /** Data that begin like a file and do not validate are a run of whole tokens and something cut off: PROMISING if
      and only if one of the tokens starts a scan. */
  lemma {:induction false} PromisingIffScanned(d: seq<Byte>) returns (ts: seq<Token>)
    requires |d| >= 4 && d[0] == 0xFF && d[1] == 0xD8 && Validation(d).Parsed? && Validation(d).verdict != Validates
    ensures AllWellFormed(ts) && At(d, 2, EncodeTokens(ts))
    ensures CutOff(d, 2 + |EncodeTokens(ts)|, Validation(d), Scanned(ts))
    ensures Validation(d).verdict == Promising <==> Scanned(ts)
  {
    ts := ReadToEnd(d, 2, false);
  }

  /** Anything else is not a file at all. */
  lemma {:induction false} UnparsedIff(d: seq<Byte>)
    ensures Validation(d).Unparsed? <==> |d| < 4 || d[..2] != [0xFF, 0xD8]
  {
  }

  // ---------- fill bytes ----------

  /** How far the walk goes on from a marker byte that three more marker bytes follow. */
  const JUMP: nat := 2 + 0xFFFF

  function Fill(k: nat): (f: seq<Byte>)
    ensures |f| == k && forall i :: 0 <= i < k ==> f[i] == MARK
  {
    seq(k, _ => MARK)
  }

  /** `n` marker bytes from `offset` on, and something after them. */
  ghost predicate FillAt(d: seq<Byte>, offset: nat, n: nat) {
    n > 0 && offset + n < |d| && forall i :: offset <= i < offset + n ==> d[i] == MARK
  }

  /** Whatever validates ends at least two bytes further on. */
  lemma {:induction false} ValidatesAhead(d: seq<Byte>, offset: nat, hasSos: bool)
    ensures Walk(d, offset, hasSos).verdict == Validates ==> Walk(d, offset, hasSos).size >= offset + 2
    decreases |d| - offset
  {
    if offset + 1 < |d| {
      if d[offset] != MARK {
        ValidatesAhead(d, offset + 1, hasSos);
      } else if Bare(d[offset + 1]) || d[offset + 1] == SOS {
        ValidatesAhead(d, offset + 2, hasSos || d[offset + 1] == SOS);
      } else if d[offset + 1] != EOI && offset + 3 < |d| {
        ValidatesAhead(d, offset + 2 + Length(d[offset + 2], d[offset + 3]), hasSos);
      }
    }
  }

  /** How many of `n` marker bytes are left once the jumps have passed all the others. */
  function LeftOver(n: nat): nat
    requires n > 0
  {
    (n - 1) % JUMP + 1
  }

  lemma {:induction false} OneJumpLess(n: nat)
    requires n > JUMP
    ensures LeftOver(n) == LeftOver(n - JUMP)
  {
    var q, r := (n - 1) / JUMP, (n - 1) % JUMP;
    assert n - 1 - JUMP == (q - 1) * JUMP + r;
  }

  /** Of four or more marker bytes the first is taken for a marker with the largest length. */
  lemma {:induction false} JumpsOverFill(d: seq<Byte>, offset: nat, n: nat, hasSos: bool)
    requires FillAt(d, offset, n) && n >= 4
    ensures Walk(d, offset, hasSos) == Walk(d, offset + JUMP, hasSos)
  {
    assert d[offset] == MARK && d[offset + 1] == MARK && d[offset + 2] == MARK && d[offset + 3] == MARK;
    assert Length(MARK, MARK) == 0xFFFF;
  }

  lemma {:induction false} WalksToLeftOver(d: seq<Byte>, offset: nat, n: nat, hasSos: bool)
    requires FillAt(d, offset, n)
    ensures 0 < LeftOver(n) <= n && LeftOver(n) <= JUMP && FillAt(d, offset + n - LeftOver(n), LeftOver(n))
    ensures Walk(d, offset, hasSos) == Walk(d, offset + n - LeftOver(n), hasSos)
    decreases n
  {
    hide Walk;
    if n > JUMP {
      JumpsOverFill(d, offset, n, hasSos);
      OneJumpLess(n);
      WalksToLeftOver(d, offset + JUMP, n - JUMP, hasSos);
    }
  }

  /** Of two or three marker bytes the first is taken for a marker with a length that the bytes behind it give. */
  lemma {:induction false} JumpsOverFew(d: seq<Byte>, offset: nat, n: nat, hasSos: bool)
    requires FillAt(d, offset, n) && 2 <= n < 4
    ensures offset + 3 < |d| ==>
      && (n == 3 ==> d[offset + 2] == MARK)
      && Walk(d, offset, hasSos) == Walk(d, offset + 2 + Length(d[offset + 2], d[offset + 3]), hasSos)
    ensures offset + 3 >= |d| ==> Walk(d, offset, hasSos).verdict != Validates
  {
    assert d[offset] == MARK && d[offset + 1] == MARK;
  }

  /** The walk ends with the EOI that follows the marker bytes, if and only if one of them is left over:
      otherwise a jump leads past it. */
  lemma {:induction false} WalksFill(d: seq<Byte>, offset: nat, n: nat, hasSos: bool)
    requires FillAt(d, offset, n) && d[offset + n] == EOI
    ensures Walk(d, offset, hasSos) == Parsed(Validates, offset + n + 1) <==> LeftOver(n) == 1
  {
    WalksToLeftOver(d, offset, n, hasSos);
    var left := LeftOver(n);
    var at := offset + n - left;
    if left == 1 {
      assert d[at] == MARK && d[at + 1] == EOI;
    } else if left < 4 {
      JumpsOverFew(d, at, left, hasSos);
      if at + 3 < |d| {
        ValidatesAhead(d, at + 2 + Length(d[at + 2], d[at + 3]), hasSos);
      }
    } else {
      JumpsOverFill(d, at, left, hasSos);
      ValidatesAhead(d, at + JUMP, hasSos);
    }
  }

  /** A marker stream with `k` fill bytes before its final EOI. */
  ghost function Filled(ts: seq<Token>, k: nat): seq<Byte>
    requires AllWellFormed(ts)
  {
    [MARK, SOI] + EncodeTokens(ts) + Fill(k) + [MARK, EOI]
  }

  /** Annex B.1.1.2 of ITU-T T.81 lets any marker be preceded by fill bytes FF. With `k` of them before the
      final EOI, and whatever follows the file, it is accepted with its length if and only if `k` is a
      multiple of 65537, the length of the jump that four marker bytes in a row make. */
  lemma {:induction false} FilledAcceptedIffJumpsFit(ts: seq<Token>, k: nat, suffix: seq<Byte>)
    requires AllWellFormed(ts)
    ensures Validation(Filled(ts, k) + suffix) == Parsed(Validates, |Filled(ts, k)|) <==> k % 65537 == 0
  {
    hide Walk, EncodeTokens;
    var start, fill := [MARK, SOI] + EncodeTokens(ts), Fill(k);
    var d := Filled(ts, k) + suffix;
    assert d == [MARK, SOI] + EncodeTokens(ts) + (fill + [MARK, EOI] + suffix);
    AtAppend([MARK, SOI], EncodeTokens(ts), fill + [MARK, EOI] + suffix);
    WalksTokens(d, 2, false, ts);
    assert d == start + (fill + [MARK]) + [EOI] + suffix;
    assert FillAt(d, |start|, k + 1) by {
      assert forall i :: 0 <= i < k + 1 ==> (fill + [MARK])[i] == MARK;
      assert forall i :: |start| <= i < |start| + k + 1 ==> d[i] == (fill + [MARK])[i - |start|];
    }
    WalksFill(d, |start|, k + 1, Scanned(ts));
  }

  /** One fill byte at the very end of the data leaves nothing that validates. */
  lemma {:induction false} OneFillByteLast(ts: seq<Token>)
    requires AllWellFormed(ts)
    ensures var d := [MARK, SOI] + EncodeTokens(ts) + [MARK, MARK, EOI];
      d == Filled(ts, 1) && Validation(d).Parsed? && Validation(d).verdict != Validates
  {
    hide EncodeTokens, WellFormed, Scanned;
    assert Fill(1) + [MARK, EOI] == [MARK, MARK, EOI];
    AtAppend([MARK, SOI], EncodeTokens(ts), [MARK, MARK, EOI]);
    WalksTokens([MARK, SOI] + EncodeTokens(ts) + [MARK, MARK, EOI], 2, false, ts);
  }

  /** In particular one fill byte is fatal and 65537 are not. */
  lemma {:induction false} FillByteHidesTheEnd(ts: seq<Token>, suffix: seq<Byte>)
    requires AllWellFormed(ts)
    ensures Validation(Filled(ts, 1) + suffix) != Parsed(Validates, |Filled(ts, 1)|)
    ensures Validation(Filled(ts, 65537) + suffix) == Parsed(Validates, |Filled(ts, 65537)|)
  {
    hide *;
    FilledAcceptedIffJumpsFit(ts, 1, suffix);
    FilledAcceptedIffJumpsFit(ts, 65537, suffix);
  }

  // ---------- fill bytes before other markers ----------

  /** The token starts with this marker. */
  ghost predicate StartsWith(t: Token, marker: Byte) {
    match t
    case Plain(_) => false
    case Stuffed(m) => m == marker
    case ScanStart => marker == SOS
    case Segment(m, _, _) => m == marker
  }

  /** A marker stream with `k` fill bytes before one of its tokens. */
  ghost function FilledBefore(ts: seq<Token>, k: nat, t: Token, rest: seq<Token>): seq<Byte>
    requires AllWellFormed(ts) && WellFormed(t) && AllWellFormed(rest)
  {
    [MARK, SOI] + EncodeTokens(ts) + Fill(k) + (EncodeToken(t) + EncodeTokens(rest) + [MARK, EOI])
  }

  /** Behind these tokens, `k` fill bytes before this marker never matter: whatever the marker's token holds and
      whatever follows it, the stream is accepted with its length. */
  ghost predicate FillHarmless(ts: seq<Token>, k: nat, marker: Byte)
    requires AllWellFormed(ts)
  {
    forall t, rest, suffix :: WellFormed(t) && StartsWith(t, marker) && AllWellFormed(rest)
      ==> Validation(FilledBefore(ts, k, t, rest) + suffix) == Parsed(Validates, |FilledBefore(ts, k, t, rest)|)
  }

  /** From a token boundary the rest of a stream is accepted. */
  lemma {:induction false} AcceptsRest(d: seq<Byte>, offset: nat, hasSos: bool, ts: seq<Token>)
    requires AllWellFormed(ts) && At(d, offset, EncodeTokens(ts) + [MARK, EOI])
    ensures Walk(d, offset, hasSos) == Parsed(Validates, offset + |EncodeTokens(ts)| + 2)
  {
    hide EncodeTokens, WellFormed;
    AtConcat(d, offset, EncodeTokens(ts), [MARK, EOI]);
    WalksTokens(d, offset, hasSos, ts);
    var at := offset + |EncodeTokens(ts)|;
    assert d[at] == d[at..at + 2][0] && d[at + 1] == d[at..at + 2][1];
  }

  /** The walk through a filled stream comes to the marker bytes left over. */
  lemma {:induction false} ReachesLeftOver(ts: seq<Token>, k: nat, t: Token, rest: seq<Token>, suffix: seq<Byte>)
      returns (at: nat)
    requires AllWellFormed(ts) && WellFormed(t) && !t.Plain? && AllWellFormed(rest)
    ensures var f := FilledBefore(ts, k, t, rest);
      var left := k % JUMP + 1;
      && FillAt(f + suffix, at, left)
      && At(f + suffix, at + left - 1, EncodeToken(t) + EncodeTokens(rest) + [MARK, EOI])
      && |f| == at + left - 1 + |EncodeToken(t)| + |EncodeTokens(rest)| + 2
      && Validation(f + suffix) == Walk(f + suffix, at, Scanned(ts))
  {
    hide Walk, EncodeToken, EncodeTokens, WellFormed, Scanned, FillAt, At;
    var tail := EncodeToken(t) + EncodeTokens(rest) + [MARK, EOI];
    var f := FilledBefore(ts, k, t, rest);
    TokenStart(t);
    var offset := |[MARK, SOI] + EncodeTokens(ts)|;
    assert f == [MARK, SOI] + EncodeTokens(ts) + Fill(k) + tail;
    FillThere(EncodeTokens(ts), k, tail, suffix);
    assert f + suffix == [MARK, SOI] + EncodeTokens(ts) + Fill(k) + tail + suffix;
    assert |f| == offset + k + |tail| && At(f + suffix, offset + k, tail);
    assert offset + k < |f + suffix|;
    WalksTokens(f + suffix, 2, false, ts);
    WalksToLeftOver(f + suffix, offset, k + 1, Scanned(ts));
    at := offset + k + 1 - LeftOver(k + 1);
  }

  lemma {:induction false} TokenStart(t: Token)
    requires WellFormed(t) && !t.Plain?
    ensures |EncodeToken(t)| >= 2 && EncodeToken(t)[0] == MARK
  {
  }

  /** Where the parts of a filled stream lie. */
  lemma {:induction false} FillThere(before: seq<Byte>, k: nat, tail: seq<Byte>, suffix: seq<Byte>)
    requires |tail| >= 2 && tail[0] == MARK
    ensures var d := [MARK, SOI] + before + Fill(k) + tail + suffix;
      && d[0] == MARK && d[1] == SOI && |d| >= 4 && At(d, 2, before)
      && FillAt(d, 2 + |before|, k + 1) && At(d, 2 + |before| + k, tail)
  {
    hide At, FillAt, Fill;
    var soi := [MARK, SOI];
    var whole := soi + before + Fill(k) + tail;
    var d := whole + suffix;
    AtFront(whole, suffix);
    AtConcat(d, 0, soi + before + Fill(k), tail);
    AtConcat(d, 0, soi + before, Fill(k));
    AtConcat(d, 0, soi, before);
    AtByte(d, 0, soi, 0);
    AtByte(d, 0, soi, 1);
    FillBehind(d, 2 + |before|, k, tail);
  }

  lemma {:induction false} AtFront(a: seq<Byte>, b: seq<Byte>)
    ensures At(a + b, 0, a)
  {
  }

  lemma {:induction false} FillBehind(d: seq<Byte>, start: nat, k: nat, tail: seq<Byte>)
    requires At(d, start, Fill(k)) && At(d, start + k, tail) && |tail| >= 2 && tail[0] == MARK
    ensures FillAt(d, start, k + 1)
  {
    hide Fill;
    AtByte(d, start + k, tail, 0);
    AtByte(d, start + k, tail, 1);
    forall i | start <= i < start + k ensures d[i] == MARK {
      AtByte(d, start, Fill(k), i - start);
    }
  }

  /** With none left over the marker is read; with 65536 or 65537 the last jump ends at the marker's code or just
      behind it, which is as good where no length follows. */
  lemma {:induction false} FitIsHarmless(ts: seq<Token>, k: nat, marker: Byte)
    requires AllWellFormed(ts) && marker != MARK
    requires k % JUMP == 0 || ((Bare(marker) || marker == SOS) && k % JUMP >= JUMP - 2)
    ensures FillHarmless(ts, k, marker)
  {
    hide Walk, EncodeTokens, Validation, FilledBefore;
    forall t, rest, suffix | WellFormed(t) && StartsWith(t, marker) && AllWellFormed(rest)
      ensures Validation(FilledBefore(ts, k, t, rest) + suffix) == Parsed(Validates, |FilledBefore(ts, k, t, rest)|)
    {
      var at := ReachesLeftOver(ts, k, t, rest, suffix);
      var d := FilledBefore(ts, k, t, rest) + suffix;
      PassesToken(d, at, k % JUMP + 1, Scanned(ts), t, rest);
    }
  }

  lemma {:induction false} PassesToken(d: seq<Byte>, at: nat, left: nat, hasSos: bool, t: Token, rest: seq<Token>)
    requires WellFormed(t) && !t.Plain? && AllWellFormed(rest) && FillAt(d, at, left)
    requires At(d, at + left - 1, EncodeToken(t) + EncodeTokens(rest) + [MARK, EOI])
    requires left == 1 || (!t.Segment? && JUMP - 1 <= left <= JUMP)
    ensures Walk(d, at, hasSos)
         == Parsed(Validates, at + left - 1 + |EncodeToken(t)| + |EncodeTokens(rest)| + 2)
  {
    hide Walk, EncodeTokens, FillAt;
    var here := at + left - 1;
    var e := EncodeToken(t);
    assert e + EncodeTokens(rest) + [MARK, EOI] == e + (EncodeTokens(rest) + [MARK, EOI]);
    AtConcat(d, here, e, EncodeTokens(rest) + [MARK, EOI]);
    if left == 1 {
      WalksToken(d, at, hasSos, t);
      AcceptsRest(d, at + |e|, hasSos || t.ScanStart?, rest);
    } else {
      JumpsOverFill(d, at, left, hasSos);
      assert d[here + 1] == d[here..here + 2][1] != MARK;
      if left == JUMP {
        StepsOver(d, here + 1, hasSos);
      }
      AcceptsRest(d, here + 2, hasSos, rest);
    }
  }

  lemma {:induction false} StepsOver(d: seq<Byte>, offset: nat, hasSos: bool)
    requires offset + 1 < |d| && d[offset] != MARK
    ensures Walk(d, offset, hasSos) == Walk(d, offset + 1, hasSos)
  {
  }

  /** A token with this marker that a wrong jump makes fail: it holds an EOI where the jump ends before that,
      and nothing where it does not. */
  ghost function Victim(marker: Byte, left: nat): Token {
    if Bare(marker) then Stuffed(marker)
    else if marker == SOS then ScanStart
    else if left + 3 >= JUMP then Segment(marker, 4, [MARK, EOI])
    else Segment(marker, 2, [])
  }

  /** The victim and the EOI behind it. */
  ghost function VictimBytes(marker: Byte, left: nat): seq<Byte> {
    if Bare(marker) || marker == SOS then [MARK, marker, MARK, EOI]
    else if left + 3 >= JUMP then [MARK, marker, 0, 4, MARK, EOI, MARK, EOI]
    else [MARK, marker, 0, 2, MARK, EOI]
  }

  lemma {:induction false} VictimFails(d: seq<Byte>, at: nat, left: nat, hasSos: bool, marker: Byte)
    requires 0 < marker < MARK && marker != EOI && FillAt(d, at, left) && 2 <= left <= JUMP
    requires Bare(marker) || marker == SOS ==> left < JUMP - 1
    requires At(d, at + left - 1, VictimBytes(marker, left)) && |d| == at + left - 1 + |VictimBytes(marker, left)|
    ensures Walk(d, at, hasSos) != Parsed(Validates, |d|)
  {
    hide FillAt, Walk, At;
    var e := VictimBytes(marker, left);
    AtByte(d, at + left - 1, e, 1);
    AtByte(d, at + left - 1, e, 2);
    if left < 4 {
      FewOvershoot(d, at, left, hasSos, marker);
    } else {
      if !Bare(marker) && marker != SOS && left + 3 >= JUMP {
        AtByte(d, at + left - 1, e, 3);
        AtByte(d, at + left - 1, e, 4);
        AtByte(d, at + left - 1, e, 5);
      }
      JumpFails(d, at, left, hasSos);
    }
  }

  /** A jump past the end of the data, or to the bytes before an EOI that comes too early. */
  lemma {:induction false} JumpFails(d: seq<Byte>, at: nat, left: nat, hasSos: bool)
    requires FillAt(d, at, left) && 4 <= left <= JUMP
    requires |d| <= at + JUMP + 1
          || (left + 3 >= JUMP && EarlyEoi(d, at + left))
    ensures Walk(d, at, hasSos) != Parsed(Validates, |d|)
  {
    hide FillAt, Walk, EarlyEoi;
    JumpsOverFill(d, at, left, hasSos);
    if |d| <= at + JUMP + 1 {
      EndsThere(d, at + JUMP, hasSos);
    } else {
      EarlyEnd(d, at + left, hasSos, at + JUMP);
    }
  }

  /** An EOI behind three other bytes, and not at the end. */
  ghost predicate EarlyEoi(d: seq<Byte>, offset: nat) {
    && offset + 6 < |d| && d[offset] != MARK && d[offset + 1] != MARK && d[offset + 2] != MARK
    && d[offset + 3] == MARK && d[offset + 4] == EOI
  }

  /** Near the end of the data, two or three marker bytes before a marker make the walk run out of data. */
  lemma {:induction false} FewOvershoot(d: seq<Byte>, at: nat, left: nat, hasSos: bool, marker: Byte)
    requires FillAt(d, at, left) && 2 <= left < 4 && d[at + left] == marker > 0 && |d| < at + 0x100
    ensures Walk(d, at, hasSos).verdict != Validates
  {
    hide Walk;
    JumpsOverFew(d, at, left, hasSos);
    if at + 3 < |d| {
      assert Length(d[at + 2], d[at + 3]) >= 0x100;
      EndsThere(d, at + 2 + Length(d[at + 2], d[at + 3]), hasSos);
    }
  }

  /** At the last byte and past it nothing is accepted. */
  lemma {:induction false} EndsThere(d: seq<Byte>, offset: nat, hasSos: bool)
    requires offset + 1 >= |d|
    ensures Walk(d, offset, hasSos).verdict != Validates
  {
  }

  /** From one of the three bytes before an EOI the walk steps to it. */
  lemma {:induction false} EarlyEnd(d: seq<Byte>, offset: nat, hasSos: bool, from: nat)
    requires EarlyEoi(d, offset) && offset <= from <= offset + 3
    ensures offset + 5 < |d| && Walk(d, from, hasSos) == Parsed(Validates, offset + 5)
  {
    assert Walk(d, offset + 3, hasSos) == Parsed(Validates, offset + 5);
    assert Walk(d, offset + 2, hasSos) == Walk(d, offset + 3, hasSos);
    assert Walk(d, offset + 1, hasSos) == Walk(d, offset + 2, hasSos);
  }

  lemma {:induction false} MisfitIsHarmful(ts: seq<Token>, k: nat, marker: Byte)
    requires AllWellFormed(ts) && 0 < marker < MARK && marker != EOI && k % JUMP > 0
    requires Bare(marker) || marker == SOS ==> k % JUMP < JUMP - 2
    ensures !FillHarmless(ts, k, marker)
  {
    hide Walk, EncodeToken, EncodeTokens, Validation, FilledBefore, FillAt, WellFormed, At;
    var left := k % JUMP + 1;
    var t := Victim(marker, left);
    VictimEncoded(marker, left);
    var at := ReachesLeftOver(ts, k, t, [], []);
    var f := FilledBefore(ts, k, t, []);
    assert f + [] == f;
    NoTokens();
    assert EncodeToken(t) + [] + [MARK, EOI] == VictimBytes(marker, left);
    VictimFails(f, at, left, Scanned(ts), marker);
  }

  lemma {:induction false} VictimEncoded(marker: Byte, left: nat)
    requires 0 < marker < MARK && marker != EOI
    ensures var t := Victim(marker, left);
      && WellFormed(t) && StartsWith(t, marker) && !t.Plain?
      && EncodeToken(t) + [MARK, EOI] == VictimBytes(marker, left)
  {
  }

  lemma {:induction false} NoTokens()
    ensures AllWellFormed([]) && EncodeTokens([]) == []
  {
  }

  /** Fill bytes before a marker that has a length: they never matter if and only if their number is a multiple
      of 65537. Before a restart marker or SOS the numbers one and two below a multiple do as well. */
  lemma {:induction false} FillHarmlessIff(ts: seq<Token>, k: nat, marker: Byte)
    requires AllWellFormed(ts) && 0 < marker < MARK && marker != EOI
    ensures FillHarmless(ts, k, marker)
       <==> k % 65537 == 0 || ((0xD0 <= marker <= 0xD7 || marker == SOS) && k % 65537 >= 65535)
  {
    hide FillHarmless, AllWellFormed;
    if k % JUMP == 0 || ((Bare(marker) || marker == SOS) && k % JUMP >= JUMP - 2) {
      FitIsHarmless(ts, k, marker);
    } else {
      MisfitIsHarmful(ts, k, marker);
    }
  }
}
