/** The PNG validator: its chunk walk, an encoder for chunk lists, and their agreement. */
module Png {
  import opened Bytes

  /** CRC-32 of a byte string; only its being a function matters here. */
  type Crc = seq<Byte> -> Word

  const MAGIC: seq<Byte> := [0x89, 0x50, 0x4E, 0x47, 0x0D, 0x0A, 0x1A, 0x0A]
  const IHDR: seq<Byte> := [0x49, 0x48, 0x44, 0x52]
  const IEND: seq<Byte> := [0x49, 0x45, 0x4E, 0x44]

  function WordAt(d: seq<Byte>, offset: nat): Word
    requires offset + 4 <= |d|
  {
    FromBytes(d[offset], d[offset + 1], d[offset + 2], d[offset + 3])
  }

  /** How many bytes, from the chunk type on, the CRC call covers: `length + 4` in 32 bits. */
  function CrcSpan(length: Word): (n: nat)
    ensures n <= length + 4
  {
    (length + 4) % TWO32
  }

  // ---------- the walk ----------

  /** What stands at an offset: too little data for a chunk, a chunk with a wrong CRC, or a chunk. */
  datatype View = Short | Damaged | Whole(kind: seq<Byte>, length: Word)

  function ViewAt(d: seq<Byte>, crc: Crc, offset: nat): (v: View)
    ensures v.Whole? ==> offset + 12 + v.length <= |d| && |v.kind| == 4
  {
    if offset + 12 > |d| || offset + 12 + WordAt(d, offset) > |d| then Short
    else
      var length := WordAt(d, offset);
      if crc(d[offset + 4..offset + 4 + CrcSpan(length)]) != WordAt(d, offset + 8 + length) then Damaged
      else Whole(d[offset + 4..offset + 8], length)
  }

  function Walk(d: seq<Byte>, crc: Crc, offset: nat, hasIhdr: bool): (r: Parse)
    decreases |d| - offset
  {
    match ViewAt(d, crc, offset)
    case Short => Parsed(if hasIhdr then Promising else Invalid, offset)
    case Damaged => Unparsed
    case Whole(kind, length) =>
      if kind == IHDR then
        if offset != 8 || length != 13 then Unparsed else Walk(d, crc, offset + 12 + length, true)
      else if kind == IEND then Parsed(if hasIhdr then Validates else Invalid, offset + 12)
      else Walk(d, crc, offset + 12 + length, hasIhdr)
  }

  function Validation(d: seq<Byte>, crc: Crc): Parse {
    if |d| < 8 || d[..8] != MAGIC then Unparsed else Walk(d, crc, 8, false)
  }

  lemma {:induction false} ViewCases(d: seq<Byte>, crc: Crc, offset: nat)
    ensures offset + 12 > |d| ==> ViewAt(d, crc, offset) == Short
    ensures offset + 12 <= |d| ==>
      var length := WordAt(d, offset);
      if offset + 12 + length > |d| then ViewAt(d, crc, offset) == Short
      else
        var computed := crc(d[offset + 4..offset + 4 + CrcSpan(length)]);
        ViewAt(d, crc, offset) == if computed != WordAt(d, offset + 8 + length) then Damaged
                                  else Whole(d[offset + 4..offset + 8], length)
  {
    hide WordAt, CrcSpan;
  }

  method Validate(d: seq<Byte>, crc: Crc) returns (verdict: Verdict, parsedSize: nat)
    ensures verdict == (match Validation(d, crc) case Unparsed => Invalid case Parsed(v, _) => v)
    ensures Validation(d, crc).Parsed? ==> parsedSize == Validation(d, crc).size
  {
    hide WordAt, CrcSpan, ViewAt;
    parsedSize := 0;
    if |d| < 8 || d[..8] != MAGIC {
      return Invalid, parsedSize;
    }
    var offset: nat := 8;
    var hasIhdr := false;
    while offset + 12 <= |d|
      invariant Walk(d, crc, offset, hasIhdr) == Validation(d, crc)
      decreases |d| - offset
    {
      ghost var view, next := ViewAt(d, crc, offset), Walk(d, crc, offset, hasIhdr);
      ViewCases(d, crc, offset);
      var length := WordAt(d, offset);
      if offset + 12 + length > |d| {
        assert view == Short;
        break;
      }
      var computed := crc(d[offset + 4..offset + 4 + CrcSpan(length)]);
      var stored := WordAt(d, offset + 8 + length);
      if computed != stored {
        assert view == Damaged;
        return Invalid, parsedSize;
      }
      var kind := d[offset + 4..offset + 8];
      assert view == Whole(kind, length);
      if kind == IHDR {
        if offset != 8 || length != 13 {
          return Invalid, parsedSize;
        }
        hasIhdr := true;
      } else if kind == IEND {
        return if hasIhdr then Validates else Invalid, offset + 12;
      }
      offset := offset + 12 + length;
    }
    ViewCases(d, crc, offset);
    return if hasIhdr then Promising else Invalid, offset;
  }

  // ---------- chunk lists ----------

  /** The signature and chunk types of the PNG Specification, sections 5.2 and 11.2, as text. */
  lemma {:induction false} Names()
    ensures IHDR == Ascii("IHDR") && IEND == Ascii("IEND")
    ensures MAGIC == [137] + Ascii("PNG\r\n") + [26] + Ascii("\n")
  {
  }

  datatype Chunk = Chunk(kind: seq<Byte>, data: seq<Byte>, crc: Word)

  /** Four type bytes, a length that fits its field, and the CRC that the validator computes. */
  ghost predicate WellFormed(c: Chunk, crc: Crc) {
    && |c.kind| == 4 && |c.data| < TWO32
    && c.crc == crc((c.kind + c.data)[..CrcSpan(|c.data|)])
  }

  /** Up to the length limit of the PNG specification (section 5.3), and well past it, that is the
      CRC over the type and all of the data. */
  lemma {:induction false} CrcCoversChunk(c: Chunk, crc: Crc)
    requires |c.kind| == 4 && |c.data| < 0x8000_0000
    ensures WellFormed(c, crc) <==> c.crc == crc(c.kind + c.data)
  {
    assert (c.kind + c.data)[..CrcSpan(|c.data|)] == c.kind + c.data;
  }

  /** The code adds 4 to the length in 32 bits: all of type and data are covered if and only if that does not wrap
      round, and otherwise no more than their first three bytes. */
  lemma {:induction false} CrcCoversIff(c: Chunk)
    requires |c.kind| == 4 && |c.data| < TWO32
    ensures CrcSpan(|c.data|) == |c.kind + c.data| <==> |c.data| < 0xFFFF_FFFC
    ensures |c.data| >= 0xFFFF_FFFC ==> CrcSpan(|c.data|) == |c.data| - 0xFFFF_FFFC
  {
  }

  ghost predicate Ordinary(c: Chunk, crc: Crc) {
    WellFormed(c, crc) && c.kind != IHDR && c.kind != IEND
  }

  ghost predicate AllOrdinary(cs: seq<Chunk>, crc: Crc) {
    forall i :: 0 <= i < |cs| ==> Ordinary(cs[i], crc)
  }

  ghost function EncodeChunk(c: Chunk): seq<Byte>
    requires |c.data| < TWO32
  {
    ToBytes(|c.data|) + c.kind + c.data + ToBytes(c.crc)
  }

  ghost function EncodeChunks(cs: seq<Chunk>): seq<Byte>
    requires forall i :: 0 <= i < |cs| ==> |cs[i].data| < TWO32
  {
    if cs == [] then [] else EncodeChunk(cs[0]) + EncodeChunks(cs[1..])
  }

  /** A file: the signature, IHDR, ordinary chunks, IEND. */
  datatype File = File(header: Chunk, middle: seq<Chunk>, end: Chunk)

  ghost predicate WellFormedFile(f: File, crc: Crc) {
    && WellFormed(f.header, crc) && f.header.kind == IHDR && |f.header.data| == 13
    && AllOrdinary(f.middle, crc)
    && WellFormed(f.end, crc) && f.end.kind == IEND
  }

  ghost function BeforeEnd(f: File): seq<Byte>
    requires |f.header.data| < TWO32 && forall i :: 0 <= i < |f.middle| ==> |f.middle[i].data| < TWO32
  {
    MAGIC + EncodeChunk(f.header) + EncodeChunks(f.middle)
  }

  ghost function Encode(f: File, crc: Crc): seq<Byte>
    requires WellFormedFile(f, crc)
  {
    BeforeEnd(f) + EncodeChunk(f.end)
  }

  // ---------- every file is accepted ----------

  /** What the walk reads off a chunk. */
  lemma {:induction false} ChunkFields(d: seq<Byte>, crc: Crc, offset: nat, c: Chunk)
    requires WellFormed(c, crc) && At(d, offset, EncodeChunk(c))
    ensures ViewAt(d, crc, offset) == Whole(c.kind, |c.data|)
    ensures |EncodeChunk(c)| == 12 + |c.data| && WordAt(d, offset) == |c.data|
  {
    hide FromBytes, ToBytes, WordAt, CrcSpan, At;
    ChunkParts(d, offset, c);
    WordAtIs(d, offset, |c.data|);
    WordAtIs(d, offset + 8 + |c.data|, c.crc);
    CrcRange(d, offset, |c.data|);
    SpanInChunk(|c.data|);
  }

  lemma {:induction false} SpanInChunk(length: Word)
    ensures CrcSpan(length) <= length + 4
  {
  }

  /** Where the parts of a chunk lie. */
  lemma {:induction false} ChunkParts(d: seq<Byte>, offset: nat, c: Chunk)
    requires |c.kind| == 4 && |c.data| < TWO32 && At(d, offset, EncodeChunk(c))
    ensures |EncodeChunk(c)| == 12 + |c.data| && offset + 12 + |c.data| <= |d|
    ensures At(d, offset, ToBytes(|c.data|)) && At(d, offset + 8 + |c.data|, ToBytes(c.crc))
    ensures d[offset + 4..offset + 8] == c.kind && d[offset + 8..offset + 8 + |c.data|] == c.data
  {
    var head, tail := ToBytes(|c.data|), ToBytes(c.crc);
    FourBytes(|c.data|);
    FourBytes(c.crc);
    hide ToBytes;
    var body := c.kind + c.data;
    assert EncodeChunk(c) == head + body + tail;
    AtConcat(d, offset, head + body, tail);
    AtConcat(d, offset, head, body);
    AtConcat(d, offset + 4, c.kind, c.data);
  }

  lemma {:induction false} FourBytes(w: Word)
    ensures |ToBytes(w)| == 4
  {
  }

  lemma {:induction false} WordIsAt(d: seq<Byte>, offset: nat)
    requires offset + 4 <= |d|
    ensures At(d, offset, ToBytes(WordAt(d, offset)))
  {
    BytesRoundTrip(d[offset], d[offset + 1], d[offset + 2], d[offset + 3]);
  }

  /** The bytes under the CRC are a prefix of the chunk's type and data. */
  lemma {:induction false} CrcRange(d: seq<Byte>, offset: nat, length: Word)
    requires offset + 12 + length <= |d|
    ensures d[offset + 4..offset + 4 + CrcSpan(length)]
        == (d[offset + 4..offset + 8] + d[offset + 8..offset + 8 + length])[..CrcSpan(length)]
  {
  }

  lemma {:induction false} WordAtIs(d: seq<Byte>, offset: nat, w: Word)
    requires At(d, offset, ToBytes(w))
    ensures WordAt(d, offset) == w
  {
    var s := d[offset..offset + 4];
    assert s[0] == d[offset] && s[1] == d[offset + 1] && s[2] == d[offset + 2] && s[3] == d[offset + 3];
    WordRoundTrip(w);
  }

  lemma {:induction false} WalksChunks(d: seq<Byte>, crc: Crc, offset: nat, cs: seq<Chunk>)
    requires AllOrdinary(cs, crc) && At(d, offset, EncodeChunks(cs))
    ensures Walk(d, crc, offset, true) == Walk(d, crc, offset + |EncodeChunks(cs)|, true)
    decreases |cs|
  {
    hide ToBytes, WordAt, ViewAt, EncodeChunk;
    if cs != [] {
      EncodeCons(cs);
      AtConcat(d, offset, EncodeChunk(cs[0]), EncodeChunks(cs[1..]));
      ChunkFields(d, crc, offset, cs[0]);
      WalksChunks(d, crc, offset + |EncodeChunk(cs[0])|, cs[1..]);
    }
  }

  lemma {:induction false} EncodeCons(cs: seq<Chunk>)
    requires cs != [] && forall i :: 0 <= i < |cs| ==> |cs[i].data| < TWO32
    ensures EncodeChunks(cs) == EncodeChunk(cs[0]) + EncodeChunks(cs[1..])
  {
  }

  /** A file at the front of the data is accepted; the size reported stops twelve bytes into IEND. */
  lemma {:induction false} AcceptsFile(d: seq<Byte>, crc: Crc, f: File)
    requires WellFormedFile(f, crc) && Encode(f, crc) <= d
    ensures Validation(d, crc) == Parsed(Validates, |BeforeEnd(f)| + 12)
  {
    hide ToBytes, WordAt, ViewAt, EncodeChunk, EncodeChunks;
    assert At(d, 0, Encode(f, crc));
    AtConcat(d, 0, BeforeEnd(f), EncodeChunk(f.end));
    AtConcat(d, 0, MAGIC + EncodeChunk(f.header), EncodeChunks(f.middle));
    AtConcat(d, 0, MAGIC, EncodeChunk(f.header));
    ChunkFields(d, crc, 8, f.header);
    WalksChunks(d, crc, 33, f.middle);
    ChunkFields(d, crc, |BeforeEnd(f)|, f.end);
  }

  // ---------- only files are accepted ----------

  /** The chunk that a successful CRC comparison at `offset` exhibits. */
  lemma {:induction false} ReadChunk(d: seq<Byte>, crc: Crc, offset: nat) returns (c: Chunk)
    requires ViewAt(d, crc, offset).Whole?
    ensures WellFormed(c, crc) && At(d, offset, EncodeChunk(c)) && |EncodeChunk(c)| == 12 + |c.data|
    ensures ViewAt(d, crc, offset) == Whole(c.kind, |c.data|)
  {
    hide FromBytes, ToBytes, WordAt, CrcSpan, EncodeChunk, At;
    var length := WordAt(d, offset);
    var tail := offset + 8 + length;
    CrcRange(d, offset, length);
    SpanInChunk(length);
    c := Chunk(d[offset + 4..offset + 8], d[offset + 8..tail], WordAt(d, tail));
    ChunkLies(d, offset, c);
  }

  /** The parts of a chunk, read at their places, make up the chunk. */
  lemma {:induction false} ChunkLies(d: seq<Byte>, offset: nat, c: Chunk)
    requires |c.data| < TWO32 && offset + 12 + |c.data| <= |d| && WordAt(d, offset) == |c.data|
    requires c.kind == d[offset + 4..offset + 8] && c.data == d[offset + 8..offset + 8 + |c.data|]
    requires c.crc == WordAt(d, offset + 8 + |c.data|)
    ensures At(d, offset, EncodeChunk(c)) && |EncodeChunk(c)| == 12 + |c.data|
  {
    hide FromBytes, ToBytes, WordAt, At;
    var head, tail := ToBytes(|c.data|), ToBytes(c.crc);
    FourBytes(|c.data|);
    FourBytes(c.crc);
    WordIsAt(d, offset);
    WordIsAt(d, offset + 8 + |c.data|);
    AtSlice(d, offset + 4, 4);
    AtSlice(d, offset + 8, |c.data|);
    var body := c.kind + c.data;
    AtConcat(d, offset + 4, c.kind, c.data);
    AtConcat(d, offset, head, body);
    AtConcat(d, offset, head + body, tail);
    assert EncodeChunk(c) == head + body + tail;
  }

  lemma {:induction false} OneChunkMore(d: seq<Byte>, crc: Crc, offset: nat, c: Chunk, rest: seq<Chunk>)
    requires Ordinary(c, crc) && AllOrdinary(rest, crc)
    requires At(d, offset, EncodeChunk(c)) && At(d, offset + |EncodeChunk(c)|, EncodeChunks(rest))
    ensures AllOrdinary([c] + rest, crc) && At(d, offset, EncodeChunks([c] + rest))
    ensures |EncodeChunks([c] + rest)| == |EncodeChunk(c)| + |EncodeChunks(rest)|
  {
    hide EncodeChunk, EncodeChunks, At;
    AtConcat(d, offset, EncodeChunk(c), EncodeChunks(rest));
    assert ([c] + rest)[1..] == rest;
    EncodeCons([c] + rest);
  }

  /** A walk that validates from past the first chunk on stands at a chunk: IEND, or one it passes. */
  lemma {:induction false} WalksPastChunk(d: seq<Byte>, crc: Crc, offset: nat)
    requires offset > 8 && Walk(d, crc, offset, true).Parsed? && Walk(d, crc, offset, true).verdict == Validates
    ensures ViewAt(d, crc, offset).Whole?
    ensures var view := ViewAt(d, crc, offset);
      && view.kind != IHDR
      && Walk(d, crc, offset, true) == if view.kind == IEND then Parsed(Validates, offset + 12)
                                       else Walk(d, crc, offset + 12 + view.length, true)
  {
    hide ViewAt;
  }

  lemma {:induction false} NoChunks(d: seq<Byte>, crc: Crc, offset: nat)
    requires offset <= |d|
    ensures AllOrdinary([], crc) && At(d, offset, EncodeChunks([])) && |EncodeChunks([])| == 0
  {
  }

  lemma {:induction false} ReadChunks(d: seq<Byte>, crc: Crc, offset: nat) returns (cs: seq<Chunk>, end: Chunk)
    requires offset > 8 && Walk(d, crc, offset, true).Parsed? && Walk(d, crc, offset, true).verdict == Validates
    ensures AllOrdinary(cs, crc) && At(d, offset, EncodeChunks(cs))
    ensures WellFormed(end, crc) && end.kind == IEND && At(d, offset + |EncodeChunks(cs)|, EncodeChunk(end))
    ensures Walk(d, crc, offset, true).size == offset + |EncodeChunks(cs)| + 12
    decreases |d| - offset
  {
    hide Walk, ViewAt, At, WellFormed, AllOrdinary, EncodeChunk, EncodeChunks;
    WalksPastChunk(d, crc, offset);
    var c := ReadChunk(d, crc, offset);
    if c.kind == IEND {
      cs, end := [], c;
      NoChunks(d, crc, offset);
    } else {
      var rest;
      rest, end := ReadChunks(d, crc, offset + 12 + |c.data|);
      OneChunkMore(d, crc, offset, c, rest);
      cs := [c] + rest;
    }
  }

  lemma {:induction false} ReadFile(d: seq<Byte>, crc: Crc) returns (f: File)
    requires Validation(d, crc).Parsed? && Validation(d, crc).verdict == Validates
    ensures WellFormedFile(f, crc) && Encode(f, crc) <= d
    ensures Validation(d, crc).size == |BeforeEnd(f)| + 12
  {
    hide ToBytes, WordAt, ViewAt, EncodeChunk;
    HeaderComesFirst(d, crc);
    var header := ReadChunk(d, crc, 8);
    var middle, end := ReadChunks(d, crc, 8 + |EncodeChunk(header)|);
    f := File(header, middle, end);
    assert At(d, 0, MAGIC);
    AtConcat(d, 0, MAGIC, EncodeChunk(header));
    AtConcat(d, 0, MAGIC + EncodeChunk(header), EncodeChunks(middle));
    AtConcat(d, 0, BeforeEnd(f), EncodeChunk(end));
    assert At(d, 0, Encode(f, crc));
  }

  /** A walk that starts past the first chunk without IHDR never validates. */
  lemma {:induction false} NeverWithoutHeader(d: seq<Byte>, crc: Crc, offset: nat)
    requires offset > 8
    ensures Walk(d, crc, offset, false).Parsed? ==> Walk(d, crc, offset, false).verdict != Validates
    decreases |d| - offset
  {
    hide ViewAt;
    var view := ViewAt(d, crc, offset);
    if view.Whole? {
      NeverWithoutHeader(d, crc, offset + 12 + view.length);
    }
  }

  lemma {:induction false} HeaderComesFirst(d: seq<Byte>, crc: Crc)
    requires Walk(d, crc, 8, false).Parsed? && Walk(d, crc, 8, false).verdict == Validates
    ensures ViewAt(d, crc, 8) == Whole(IHDR, 13)
  {
    hide ViewAt;
    var view := ViewAt(d, crc, 8);
    if view.Whole? && view.kind != IHDR && view.kind != IEND {
      NeverWithoutHeader(d, crc, 20 + view.length);
    }
  }

  // ---------- files that are cut off ----------

  /** No whole chunk stands here. */
  ghost predicate NoChunkAt(d: seq<Byte>, offset: nat) {
    offset + 12 > |d| || offset + 12 + WordAt(d, offset) > |d|
  }

  lemma {:induction false} ShortIff(d: seq<Byte>, crc: Crc, offset: nat)
    ensures ViewAt(d, crc, offset) == Short <==> NoChunkAt(d, offset)
  {
  }

  /** From past the first chunk on, the chunks up to the place where the walk finds none whole. */
  lemma {:induction false} ReadChunksToEnd(d: seq<Byte>, crc: Crc, offset: nat) returns (cs: seq<Chunk>)
    requires offset > 8 && offset <= |d|
    requires Walk(d, crc, offset, true).Parsed? && Walk(d, crc, offset, true).verdict != Validates
    ensures AllOrdinary(cs, crc) && At(d, offset, EncodeChunks(cs)) && NoChunkAt(d, offset + |EncodeChunks(cs)|)
    ensures Walk(d, crc, offset, true) == Parsed(Promising, offset + |EncodeChunks(cs)|)
    decreases |d| - offset
  {
    hide At, WellFormed, AllOrdinary, EncodeChunk, EncodeChunks, ViewAt, NoChunkAt, WordAt;
    ShortIff(d, crc, offset);
    if ViewAt(d, crc, offset) == Short {
      cs := [];
      NoChunks(d, crc, offset);
    } else {
      var c := ReadChunk(d, crc, offset);
      var rest := ReadChunksToEnd(d, crc, offset + 12 + |c.data|);
      OneChunkMore(d, crc, offset, c, rest);
      cs := [c] + rest;
    }
  }

  /** What a file that is cut off leaves: a whole IHDR, ordinary chunks, and then no whole chunk. */
  ghost predicate CutOff(d: seq<Byte>, crc: Crc, header: Chunk, middle: seq<Chunk>, p: nat) {
    && WellFormed(header, crc) && header.kind == IHDR && |header.data| == 13 && AllOrdinary(middle, crc)
    && At(d, 0, MAGIC + EncodeChunk(header) + EncodeChunks(middle))
    && p == |MAGIC + EncodeChunk(header) + EncodeChunks(middle)| && NoChunkAt(d, p)
  }

  lemma {:induction false} PromisingStartsWithHeader(d: seq<Byte>, crc: Crc)
    requires Walk(d, crc, 8, false).Parsed? && Walk(d, crc, 8, false).verdict == Promising
    ensures ViewAt(d, crc, 8) == Whole(IHDR, 13) && Walk(d, crc, 8, false) == Walk(d, crc, 33, true)
  {
    hide ViewAt;
    var view := ViewAt(d, crc, 8);
    if view.Whole? && view.kind != IHDR && view.kind != IEND {
      NeverPromising(d, crc, 20 + view.length);
    }
  }

  lemma {:induction false} NeverPromising(d: seq<Byte>, crc: Crc, offset: nat)
    requires offset > 8
    ensures Walk(d, crc, offset, false).Parsed? ==> Walk(d, crc, offset, false).verdict != Promising
    decreases |d| - offset
  {
    hide ViewAt;
    var view := ViewAt(d, crc, offset);
    if view.Whole? {
      NeverPromising(d, crc, offset + 12 + view.length);
    }
  }

  lemma {:induction false} WalksCutOff(d: seq<Byte>, crc: Crc, header: Chunk, middle: seq<Chunk>, p: nat)
    requires CutOff(d, crc, header, middle, p)
    ensures Validation(d, crc) == Parsed(Promising, p)
  {
    hide ToBytes, WordAt, ViewAt, EncodeChunk, EncodeChunks;
    AtConcat(d, 0, MAGIC + EncodeChunk(header), EncodeChunks(middle));
    AtConcat(d, 0, MAGIC, EncodeChunk(header));
    ChunkFields(d, crc, 8, header);
    WalksChunks(d, crc, 33, middle);
    ShortIff(d, crc, p);
  }

  /** PROMISING with size p, if and only if the data start with a whole IHDR and ordinary chunks of length p and no
      whole chunk follows; so a file that is cut off anywhere past IHDR is PROMISING. */
  lemma {:induction false} PromisingIffCutOff(d: seq<Byte>, crc: Crc, p: nat)
    ensures Validation(d, crc) == Parsed(Promising, p) <==> exists header, middle :: CutOff(d, crc, header, middle, p)
  {
    hide ToBytes, WordAt, ViewAt, EncodeChunk, EncodeChunks, NoChunkAt;
    if Validation(d, crc) == Parsed(Promising, p) {
      PromisingStartsWithHeader(d, crc);
      var header := ReadChunk(d, crc, 8);
      var middle := ReadChunksToEnd(d, crc, 33);
      assert At(d, 0, MAGIC);
      AtConcat(d, 0, MAGIC, EncodeChunk(header));
      AtConcat(d, 0, MAGIC + EncodeChunk(header), EncodeChunks(middle));
      assert CutOff(d, crc, header, middle, p);
    }
    if header, middle :| CutOff(d, crc, header, middle, p) {
      WalksCutOff(d, crc, header, middle, p);
    }
  }

  // ---------- main results ----------

  /** VALIDATES, if and only if the data start with a chunk list from IHDR to IEND, all CRCs right; the
      size reported is the length of that list less the data of IEND. */
  lemma {:induction false} ValidatesIffFile(d: seq<Byte>, crc: Crc, p: nat)
    ensures Validation(d, crc) == Parsed(Validates, p)
       <==> exists f :: WellFormedFile(f, crc) && Encode(f, crc) <= d && p == |Encode(f, crc)| - |f.end.data|
  {
    hide Walk, WellFormedFile, Encode, BeforeEnd;
    if Validation(d, crc) == Parsed(Validates, p) {
      var f := ReadFile(d, crc);
      EncodedLength(f, crc);
    }
    if f :| WellFormedFile(f, crc) && Encode(f, crc) <= d && p == |Encode(f, crc)| - |f.end.data| {
      EncodedLength(f, crc);
      AcceptsFile(d, crc, f);
    }
  }

  lemma {:induction false} EncodedLength(f: File, crc: Crc)
    requires WellFormedFile(f, crc)
    ensures |Encode(f, crc)| == |BeforeEnd(f)| + 12 + |f.end.data|
  {
    hide EncodeChunks;
  }

  /** The verdict depends on the carved bytes only, whatever follows them, if and only if IEND is empty:
      the size reported leaves the data of a non-empty IEND outside the carved bytes. */
  lemma {:induction false} VerdictIsLocalIffEndIsEmpty(d: seq<Byte>, crc: Crc, p: nat)
    requires Validation(d, crc) == Parsed(Validates, p)
    ensures 12 <= p <= |d|
    ensures (forall suffix :: Validation(d[..p] + suffix, crc) == Parsed(Validates, p)) <==> WordAt(d, p - 12) == 0
  {
    hide ToBytes, WordAt, ViewAt, EncodeChunk;
    var f := ReadFile(d, crc);
    assert At(d, 0, Encode(f, crc));
    AtConcat(d, 0, BeforeEnd(f), EncodeChunk(f.end));
    ChunkFields(d, crc, p - 12, f.end);
    if f.end.data == [] {
      forall suffix
        ensures Validation(d[..p] + suffix, crc) == Parsed(Validates, p)
      {
        assert Encode(f, crc) <= d[..p] + suffix;
        AcceptsFile(d[..p] + suffix, crc, f);
      }
    } else {
      var cut := d[..p] + [];
      EndOfWholeData(cut, crc);
      SameWord(cut, d, p - 12);
      assert Validation(cut, crc) != Parsed(Validates, p);
    }
  }

  lemma {:induction false} SameWord(d: seq<Byte>, e: seq<Byte>, offset: nat)
    requires offset + 4 <= |d| && d <= e
    ensures WordAt(d, offset) == WordAt(e, offset)
  {
  }

  /** Data that end where the carved bytes end have an empty IEND. */
  lemma {:induction false} EndOfWholeData(d: seq<Byte>, crc: Crc)
    requires |d| >= 12
    ensures Validation(d, crc) == Parsed(Validates, |d|) ==> WordAt(d, |d| - 12) == 0
  {
    hide ToBytes, WordAt, ViewAt, EncodeChunk;
    if Validation(d, crc) == Parsed(Validates, |d|) {
      var f := ReadFile(d, crc);
      assert At(d, 0, Encode(f, crc));
      AtConcat(d, 0, BeforeEnd(f), EncodeChunk(f.end));
      ChunkFields(d, crc, |d| - 12, f.end);
    }
  }

  /** Whatever the CRC and the data of IEND, if there are any: a file that is accepted, and the bytes carved from
      it that are not. */
  lemma {:induction false} CutEndIsNoFile(crc: Crc, data: seq<Byte>)
    requires 0 < |data| < TWO32
    ensures exists f :: WellFormedFile(f, crc) && f.end.data == data && CutFails(Encode(f, crc), crc, |data|)
  {
    hide ToBytes, WordAt, ViewAt, EncodeChunk, EncodeChunks, Validation;
    var header: seq<Byte> := seq(13, _ => 0);
    var f := File(Sealed(IHDR, header, crc), [], Sealed(IEND, data, crc));
    var d := Encode(f, crc);
    AcceptsFile(d, crc, f);
    EncodedLength(f, crc);
    var p := |BeforeEnd(f)| + 12;
    AtConcat(d, 0, BeforeEnd(f), EncodeChunk(f.end));
    ChunkFields(d, crc, p - 12, f.end);
    EndOfWholeData(d[..p], crc);
    SameWord(d[..p], d, p - 12);
    assert CutFails(d, crc, |data|);
  }

  /** The data are accepted with a size `n` short of their length, and cut to that size are not. */
  ghost predicate CutFails(d: seq<Byte>, crc: Crc, n: nat) {
    && n <= |d| && Validation(d, crc) == Parsed(Validates, |d| - n)
    && Validation(d[..|d| - n], crc) != Parsed(Validates, |d| - n)
  }

  /** A chunk with the CRC that the validator computes. */
  function Sealed(kind: seq<Byte>, data: seq<Byte>, crc: Crc): Chunk
    requires |kind| == 4 && |data| < TWO32
  {
    Chunk(kind, data, crc((kind + data)[..CrcSpan(|data|)]))
  }
}
