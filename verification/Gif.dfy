/** The GIF validator: its walk over the blocks, an encoder for GIF data streams, and their agreement. */
module Gif {
  import opened Bytes

  const SIGNATURE87: seq<Byte> := [0x47, 0x49, 0x46, 0x38, 0x37, 0x61]
  const SIGNATURE89: seq<Byte> := [0x47, 0x49, 0x46, 0x38, 0x39, 0x61]
  const TRAILER: Byte := 0x3B
  const IMAGE: Byte := 0x2C
  const EXTENSION: Byte := 0x21

  /** Bytes of the colour table that a packed field announces. */
  function TableSize(packed: Byte): nat {
    if packed >= 0x80 then 3 * [2, 4, 8, 16, 32, 64, 128, 256][packed % 8] else 0
  }

  // ---------- the walk ----------

  /** The end of a run of sub-blocks: the offset of its terminator, or an offset past the data. */
  function SkipSubBlocks(d: seq<Byte>, offset: nat): (end: nat)
    ensures end >= offset
    decreases |d| - offset
  {
    if offset < |d| && d[offset] != 0 then SkipSubBlocks(d, offset + 1 + d[offset]) else offset
  }

  function Walk(d: seq<Byte>, offset: nat): (r: Parse)
    ensures r.Parsed? && r.verdict != Invalid
    decreases |d| - offset
  {
    if offset >= |d| then Parsed(Promising, offset)
    else if d[offset] == TRAILER then Parsed(Validates, offset + 1)
    else if d[offset] == IMAGE then
      if offset + 10 > |d| then Parsed(Promising, offset)
      else
        var data := offset + 10 + TableSize(d[offset + 9]);
        if data >= |d| then Parsed(Promising, data)
        else Walk(d, SkipSubBlocks(d, data + 1) + 1)
    else if d[offset] == EXTENSION then
      if offset + 2 > |d| then Parsed(Promising, offset)
      else Walk(d, SkipSubBlocks(d, offset + 2) + 1)
    else Parsed(Promising, offset)
  }

  function Validation(d: seq<Byte>): Parse {
    if |d| < 14 || (d[..6] != SIGNATURE87 && d[..6] != SIGNATURE89) then Unparsed
    else Walk(d, 13 + TableSize(d[10]))
  }

  lemma {:induction false} NoTable(packed: Byte)
    ensures packed < 0x80 ==> TableSize(packed) == 0
  {
  }

  /** One block of the walk. */
  lemma {:induction false} WalkCases(d: seq<Byte>, offset: nat)
    requires offset < |d|
    ensures d[offset] == TRAILER ==> Walk(d, offset) == Parsed(Validates, offset + 1)
    ensures d[offset] == IMAGE ==>
      if offset + 10 > |d| then Walk(d, offset) == Parsed(Promising, offset)
      else
        var data := offset + 10 + TableSize(d[offset + 9]);
        Walk(d, offset) == if data >= |d| then Parsed(Promising, data) else Walk(d, SkipSubBlocks(d, data + 1) + 1)
    ensures d[offset] == EXTENSION ==>
      Walk(d, offset) == if offset + 2 > |d| then Parsed(Promising, offset)
                         else Walk(d, SkipSubBlocks(d, offset + 2) + 1)
    ensures d[offset] != TRAILER && d[offset] != IMAGE && d[offset] != EXTENSION ==>
      Walk(d, offset) == Parsed(Promising, offset)
  {
    hide SkipSubBlocks, TableSize;
  }

  lemma {:induction false} WalkEnds(d: seq<Byte>, offset: nat)
    requires offset >= |d|
    ensures Walk(d, offset) == Parsed(Promising, offset)
  {
  }

  method SkipData(d: seq<Byte>, start: nat) returns (offset: nat)
    ensures offset == SkipSubBlocks(d, start)
  {
    offset := start;
    while offset < |d| && d[offset] != 0
      invariant SkipSubBlocks(d, offset) == SkipSubBlocks(d, start)
      decreases |d| - offset
    {
      offset := offset + 1 + d[offset];
    }
  }

  method Validate(d: seq<Byte>) returns (verdict: Verdict, parsedSize: nat)
    ensures verdict == (match Validation(d) case Unparsed => Invalid case Parsed(v, _) => v)
    ensures Validation(d).Parsed? ==> parsedSize == Validation(d).size
  {
    hide SkipSubBlocks, TableSize, Walk;
    parsedSize := 0;
    if |d| < 14 {
      return Invalid, parsedSize;
    }
    if d[..6] != SIGNATURE87 && d[..6] != SIGNATURE89 {
      return Invalid, parsedSize;
    }
    var offset: nat := 13;
    var packed := d[10];
    NoTable(packed);
    if packed >= 0x80 {
      offset := offset + TableSize(packed);
    }
    while offset < |d|
      invariant Walk(d, offset) == Validation(d)
      decreases |d| - offset
    {
      WalkCases(d, offset);
      if d[offset] == TRAILER {
        return Validates, offset + 1;
      }
      if d[offset] == IMAGE {
        if offset + 10 > |d| {
          break;
        }
        offset := offset + 10;
        var imgPacked := d[offset - 1];
        NoTable(imgPacked);
        if imgPacked >= 0x80 {
          offset := offset + TableSize(imgPacked);
        }
        if offset >= |d| {
          return Promising, offset;
        }
        offset := SkipData(d, offset + 1);
        offset := offset + 1;
      } else if d[offset] == EXTENSION {
        if offset + 2 > |d| {
          break;
        }
        offset := SkipData(d, offset + 2);
        offset := offset + 1;
      } else {
        break;
      }
    }
    if offset >= |d| {
      WalkEnds(d, offset);
    }
    return Promising, offset;
  }

  // ---------- data streams ----------

  datatype Colour = Colour(red: Byte, green: Byte, blue: Byte)

  /** A block of a GIF stream; the data of both kinds is a list of sub-blocks. */
  datatype Block =
    | Image(descriptor: seq<Byte>, localTable: seq<Colour>, codeSize: Byte, data: seq<seq<Byte>>)
    | Extension(extLabel: Byte, data: seq<seq<Byte>>)

  datatype Stream = Stream(is89: bool, screen: seq<Byte>, globalTable: seq<Colour>, blocks: seq<Block>)

  function Power2(k: nat): nat {
    if k == 0 then 1 else 2 * Power2(k - 1)
  }

  /** A packed field announces a table by its highest bit; the lowest three are one less than the exponent of the
      number of its colours. */
  ghost predicate Announces(packed: Byte, table: seq<Colour>) {
    if packed / 128 == 1 then |table| == Power2(packed % 8 + 1) else table == []
  }

  ghost function EncodeTable(table: seq<Colour>): (s: seq<Byte>)
    ensures |s| == 3 * |table|
  {
    if table == [] then [] else [table[0].red, table[0].green, table[0].blue] + EncodeTable(table[1..])
  }

  /** The bytes that the code skips for a table are those of the table announced. */
  lemma {:induction false} TableBytes(packed: Byte, table: seq<Colour>)
    ensures Announces(packed, table) <==> |EncodeTable(table)| == TableSize(packed)
  {
    assert Power2(2) == 4 && Power2(4) == 4 * Power2(2) && Power2(6) == 4 * Power2(4) && Power2(8) == 4 * Power2(6);
    assert packed % 8 == 0 || packed % 8 == 1 || packed % 8 == 2 || packed % 8 == 3 || packed % 8 == 4
        || packed % 8 == 5 || packed % 8 == 6 || packed % 8 == 7;
  }

  /** Any bytes are those of a table, if their number is a multiple of three. */
  lemma {:induction false} ReadTable(s: seq<Byte>) returns (table: seq<Colour>)
    requires |s| % 3 == 0
    ensures EncodeTable(table) == s
  {
    if s == [] {
      table := [];
    } else {
      var rest := ReadTable(s[3..]);
      table := [Colour(s[0], s[1], s[2])] + rest;
      assert table[1..] == rest && s == [s[0], s[1], s[2]] + s[3..];
    }
  }

  ghost predicate SubBlocks(data: seq<seq<Byte>>) {
    forall i :: 0 <= i < |data| ==> 0 < |data[i]| < 256
  }

  ghost predicate WellFormedBlock(b: Block) {
    && SubBlocks(b.data)
    && (b.Image? ==> |b.descriptor| == 9 && Announces(b.descriptor[8], b.localTable))
  }

  ghost predicate WellFormed(s: Stream) {
    && |s.screen| == 7 && Announces(s.screen[4], s.globalTable)
    && forall i :: 0 <= i < |s.blocks| ==> WellFormedBlock(s.blocks[i])
  }

  ghost function EncodeData(data: seq<seq<Byte>>): seq<Byte>
    requires SubBlocks(data)
  {
    if data == [] then [0] else [|data[0]|] + data[0] + EncodeData(data[1..])
  }

  ghost function EncodeBlock(b: Block): seq<Byte>
    requires WellFormedBlock(b)
  {
    match b
    case Image(descriptor, localTable, codeSize, data) =>
      [0x2C] + descriptor + EncodeTable(localTable) + [codeSize] + EncodeData(data)
    case Extension(extLabel, data) => [0x21, extLabel] + EncodeData(data)
  }

  /** The blocks and the trailer. */
  ghost function EncodeBlocks(blocks: seq<Block>): seq<Byte>
    requires forall i :: 0 <= i < |blocks| ==> WellFormedBlock(blocks[i])
  {
    if blocks == [] then [0x3B] else EncodeBlock(blocks[0]) + EncodeBlocks(blocks[1..])
  }

  ghost function Encode(s: Stream): seq<Byte>
    requires WellFormed(s)
  {
    Ascii(if s.is89 then "GIF89a" else "GIF87a") + s.screen + EncodeTable(s.globalTable) + EncodeBlocks(s.blocks)
  }

  // ---------- every stream is accepted ----------

  lemma {:induction false} SkipsData(d: seq<Byte>, offset: nat, data: seq<seq<Byte>>)
    requires SubBlocks(data) && At(d, offset, EncodeData(data))
    ensures SkipSubBlocks(d, offset) + 1 == offset + |EncodeData(data)|
    decreases |data|
  {
    if data == [] {
      assert d[offset] == d[offset..offset + 1][0];
    } else {
      var size: Byte := |data[0]|;
      AtConcat(d, offset, [size] + data[0], EncodeData(data[1..]));
      AtConcat(d, offset, [size], data[0]);
      assert d[offset] == d[offset..offset + 1][0];
      SkipsData(d, offset + 1 + size, data[1..]);
    }
  }

  lemma {:induction false} WalksImage(d: seq<Byte>, offset: nat, b: Block)
    requires WellFormedBlock(b) && b.Image? && At(d, offset, EncodeBlock(b))
    ensures Walk(d, offset) == Walk(d, offset + |EncodeBlock(b)|)
  {
    hide EncodeData, TableSize, SkipSubBlocks, SubBlocks, At, EncodeBlock, Walk;
    ImageParts(d, offset, b);
    TableBytes(b.descriptor[8], b.localTable);
    var table := |EncodeTable(b.localTable)|;
    SkipsData(d, offset + 11 + table, b.data);
    EndsInData(d, offset + 11 + table, EncodeData(b.data));
    WalkOverImage(d, offset);
  }

  lemma {:induction false} EndsInData(d: seq<Byte>, offset: nat, part: seq<Byte>)
    requires At(d, offset, part)
    ensures offset + |part| <= |d|
  {
  }

  /** Where the parts of an image block lie. */
  lemma {:induction false} ImageParts(d: seq<Byte>, offset: nat, b: Block)
    requires WellFormedBlock(b) && b.Image? && At(d, offset, EncodeBlock(b))
    ensures offset + 10 <= |d| && d[offset] == IMAGE && d[offset + 9] == b.descriptor[8]
    ensures var table := |EncodeTable(b.localTable)|;
      && |EncodeBlock(b)| == 11 + table + |EncodeData(b.data)|
      && offset + 11 + table <= |d| && At(d, offset + 11 + table, EncodeData(b.data))
  {
    hide At, EncodeData, EncodeTable, SubBlocks, Power2;
    var head, table, data := [0x2C] + b.descriptor, EncodeTable(b.localTable), EncodeData(b.data);
    assert EncodeBlock(b) == head + table + [b.codeSize] + data;
    hide EncodeBlock;
    AtConcat(d, offset, head + table + [b.codeSize], data);
    AtConcat(d, offset, head + table, [b.codeSize]);
    AtConcat(d, offset, head, table);
    AtByte(d, offset, head, 0);
    AtByte(d, offset, head, 9);
    EndsInData(d, offset + 11 + |table|, data);
  }

  lemma {:induction false} WalkOverImage(d: seq<Byte>, offset: nat)
    requires offset + 10 <= |d| && d[offset] == IMAGE && offset + 10 + TableSize(d[offset + 9]) < |d|
    ensures Walk(d, offset) == Walk(d, SkipSubBlocks(d, offset + 11 + TableSize(d[offset + 9])) + 1)
  {
    hide TableSize, SkipSubBlocks;
  }

  lemma {:induction false} WalksExtension(d: seq<Byte>, offset: nat, b: Block)
    requires WellFormedBlock(b) && b.Extension? && At(d, offset, EncodeBlock(b))
    ensures Walk(d, offset) == Walk(d, offset + |EncodeBlock(b)|)
  {
    hide At, EncodeData, EncodeBlock, SkipSubBlocks, TableSize;
    ExtensionParts(d, offset, b);
    SkipsData(d, offset + 2, b.data);
    EndsInData(d, offset + 2, EncodeData(b.data));
  }

  lemma {:induction false} WalksBlock(d: seq<Byte>, offset: nat, b: Block)
    requires WellFormedBlock(b) && At(d, offset, EncodeBlock(b))
    ensures Walk(d, offset) == Walk(d, offset + |EncodeBlock(b)|)
  {
    hide Walk, EncodeBlock, WellFormedBlock;
    if b.Image? {
      WalksImage(d, offset, b);
    } else {
      WalksExtension(d, offset, b);
    }
  }

  lemma {:induction false} EncodeCons(blocks: seq<Block>)
    requires blocks != [] && forall i :: 0 <= i < |blocks| ==> WellFormedBlock(blocks[i])
    ensures EncodeBlocks(blocks) == EncodeBlock(blocks[0]) + EncodeBlocks(blocks[1..])
  {
  }

  lemma {:induction false} WalksBlocks(d: seq<Byte>, offset: nat, blocks: seq<Block>)
    requires forall i :: 0 <= i < |blocks| ==> WellFormedBlock(blocks[i])
    requires At(d, offset, EncodeBlocks(blocks))
    ensures Walk(d, offset) == Parsed(Validates, offset + |EncodeBlocks(blocks)|)
    decreases |blocks|
  {
    hide EncodeBlock, SkipSubBlocks, TableSize;
    if blocks == [] {
      assert d[offset] == d[offset..offset + 1][0];
    } else {
      var first, rest := blocks[0], blocks[1..];
      EncodeCons(blocks);
      AtConcat(d, offset, EncodeBlock(first), EncodeBlocks(rest));
      WalksBlock(d, offset, first);
      WalksBlocks(d, offset + |EncodeBlock(first)|, rest);
    }
  }

  lemma {:induction false} EndsWithTrailer(blocks: seq<Block>)
    requires forall i :: 0 <= i < |blocks| ==> WellFormedBlock(blocks[i])
    ensures |EncodeBlocks(blocks)| > 0
    decreases |blocks|
  {
    hide EncodeBlock, WellFormedBlock;
    if blocks != [] {
      EncodeCons(blocks);
      EndsWithTrailer(blocks[1..]);
    }
  }

  lemma {:induction false} Signatures()
    ensures SIGNATURE87 == Ascii("GIF87a") && SIGNATURE89 == Ascii("GIF89a")
  {
  }

  /** A stream at the front of the data is accepted, with exactly its length. */
  lemma {:induction false} AcceptsStream(d: seq<Byte>, s: Stream)
    requires WellFormed(s) && Encode(s) <= d
    ensures Validation(d) == Parsed(Validates, |Encode(s)|)
  {
    hide EncodeBlocks, EncodeTable, TableSize, WellFormedBlock, Walk, Ascii, Power2;
    Signatures();
    var signature := if s.is89 then SIGNATURE89 else SIGNATURE87;
    var table := EncodeTable(s.globalTable);
    TableBytes(s.screen[4], s.globalTable);
    assert At(d, 0, Encode(s));
    AtConcat(d, 0, signature + s.screen + table, EncodeBlocks(s.blocks));
    AtConcat(d, 0, signature + s.screen, table);
    AtConcat(d, 0, signature, s.screen);
    assert d[10] == d[6..13][4];
    EndsWithTrailer(s.blocks);
    WalksBlocks(d, 13 + |table|, s.blocks);
  }

  // ---------- only streams are accepted ----------

  lemma {:induction false} ReadData(d: seq<Byte>, offset: nat) returns (data: seq<seq<Byte>>)
    requires SkipSubBlocks(d, offset) < |d|
    ensures SubBlocks(data) && At(d, offset, EncodeData(data))
    ensures offset + |EncodeData(data)| == SkipSubBlocks(d, offset) + 1
    decreases |d| - offset
  {
    hide At;
    AtOne(d, offset);
    if d[offset] == 0 {
      data := [];
    } else {
      var size := d[offset];
      var rest := ReadData(d, offset + 1 + size);
      AtSlice(d, offset + 1, size);
      var first := d[offset + 1..offset + 1 + size];
      data := [first] + rest;
      assert data[1..] == rest;
      AtConcat(d, offset, [size], first);
      AtConcat(d, offset, [size] + first, EncodeData(rest));
    }
  }

  lemma {:induction false} TableIsWhole(packed: Byte)
    ensures TableSize(packed) % 3 == 0
  {
  }

  lemma {:induction false} ReadImage(d: seq<Byte>, offset: nat) returns (b: Block)
    requires offset + 10 <= |d| && d[offset] == IMAGE
    requires offset + 10 + TableSize(d[offset + 9]) < |d|
    requires SkipSubBlocks(d, offset + 11 + TableSize(d[offset + 9])) < |d|
    ensures WellFormedBlock(b) && At(d, offset, EncodeBlock(b)) && |EncodeBlock(b)| > 0
    ensures offset + |EncodeBlock(b)| == SkipSubBlocks(d, offset + 11 + TableSize(d[offset + 9])) + 1
  {
    hide TableSize, EncodeTable, EncodeData, SkipSubBlocks, Power2, At, SubBlocks;
    var start := offset + 10 + TableSize(d[offset + 9]);
    var descriptor := d[offset + 1..offset + 10];
    assert descriptor[8] == d[offset + 9];
    var data := ReadData(d, start + 1);
    var table := d[offset + 10..start];
    TableIsWhole(d[offset + 9]);
    var colours := ReadTable(table);
    TableBytes(d[offset + 9], colours);
    b := Image(descriptor, colours, d[start], data);
    AtOne(d, offset);
    AtSlice(d, offset + 1, 9);
    AtSlice(d, offset + 10, |table|);
    AtOne(d, start);
    var head := [0x2C] + descriptor;
    AtConcat(d, offset, [0x2C], descriptor);
    AtConcat(d, offset, head, table);
    AtConcat(d, offset, head + table, [b.codeSize]);
    AtConcat(d, offset, head + table + [b.codeSize], EncodeData(data));
  }

  lemma {:induction false} ReadExtension(d: seq<Byte>, offset: nat) returns (b: Block)
    requires offset + 2 <= |d| && d[offset] == EXTENSION
    requires SkipSubBlocks(d, offset + 2) < |d|
    ensures WellFormedBlock(b) && At(d, offset, EncodeBlock(b)) && |EncodeBlock(b)| > 0
    ensures offset + |EncodeBlock(b)| == SkipSubBlocks(d, offset + 2) + 1
  {
    var data := ReadData(d, offset + 2);
    b := Extension(d[offset + 1], data);
    assert d[offset..offset + 2] == [0x21, d[offset + 1]];
    AtConcat(d, offset, [0x21, d[offset + 1]], EncodeData(data));
  }

  /** A block that the walk passes lies inside the data. */
  lemma {:induction false} WalkPasses(d: seq<Byte>, offset: nat)
    requires Walk(d, offset).verdict == Validates && d[offset] != TRAILER
    ensures d[offset] == IMAGE ==>
      && offset + 10 <= |d| && offset + 10 + TableSize(d[offset + 9]) < |d|
      && SkipSubBlocks(d, offset + 11 + TableSize(d[offset + 9])) < |d|
      && Walk(d, offset) == Walk(d, SkipSubBlocks(d, offset + 11 + TableSize(d[offset + 9])) + 1)
    ensures d[offset] != IMAGE ==>
      && d[offset] == EXTENSION && offset + 2 <= |d| && SkipSubBlocks(d, offset + 2) < |d|
      && Walk(d, offset) == Walk(d, SkipSubBlocks(d, offset + 2) + 1)
  {
  }

  lemma {:induction false} ReadBlock(d: seq<Byte>, offset: nat) returns (b: Block)
    requires Walk(d, offset).verdict == Validates && d[offset] != TRAILER
    ensures WellFormedBlock(b) && At(d, offset, EncodeBlock(b)) && |EncodeBlock(b)| > 0
    ensures Walk(d, offset) == Walk(d, offset + |EncodeBlock(b)|)
  {
    hide Walk, At, EncodeBlock, WellFormedBlock, TableSize, SkipSubBlocks;
    WalkPasses(d, offset);
    if d[offset] == IMAGE {
      b := ReadImage(d, offset);
    } else {
      b := ReadExtension(d, offset);
    }
  }

  lemma {:induction false} ReadBlocks(d: seq<Byte>, offset: nat) returns (blocks: seq<Block>)
    requires Walk(d, offset).verdict == Validates
    ensures forall i :: 0 <= i < |blocks| ==> WellFormedBlock(blocks[i])
    ensures At(d, offset, EncodeBlocks(blocks))
    ensures Walk(d, offset).size == offset + |EncodeBlocks(blocks)|
    decreases |d| - offset
  {
    hide EncodeBlock, SkipSubBlocks, TableSize;
    if d[offset] == TRAILER {
      blocks := [];
      assert d[offset..offset + 1] == [0x3B];
    } else {
      var first := ReadBlock(d, offset);
      var rest := ReadBlocks(d, offset + |EncodeBlock(first)|);
      blocks := [first] + rest;
      EncodeCons(blocks);
      AtConcat(d, offset, EncodeBlock(first), EncodeBlocks(rest));
    }
  }

  lemma {:induction false} ReadStream(d: seq<Byte>) returns (s: Stream)
    requires Validation(d).Parsed? && Validation(d).verdict == Validates
    ensures WellFormed(s) && Encode(s) <= d && Validation(d).size == |Encode(s)|
  {
    hide EncodeBlocks, EncodeTable, WellFormedBlock, Walk, TableSize, Ascii, Power2;
    var table := TableSize(d[10]);
    var blocks := ReadBlocks(d, 13 + table);
    var screen := d[6..13];
    assert screen[4] == d[10];
    TableIsWhole(d[10]);
    var colours := ReadTable(d[13..13 + table]);
    TableBytes(d[10], colours);
    Signatures();
    s := Stream(d[..6] == SIGNATURE89, screen, colours, blocks);
    var signature := d[..6];
    AtConcat(d, 0, signature, screen);
    AtConcat(d, 0, signature + screen, EncodeTable(colours));
    AtConcat(d, 0, signature + screen + EncodeTable(colours), EncodeBlocks(blocks));
    assert At(d, 0, Encode(s));
  }

  // ---------- streams that are cut off ----------

  /** Blocks without the trailer. */
  ghost function EncodeRun(blocks: seq<Block>): seq<Byte>
    requires forall i :: 0 <= i < |blocks| ==> WellFormedBlock(blocks[i])
  {
    if blocks == [] then [] else EncodeBlock(blocks[0]) + EncodeRun(blocks[1..])
  }

  /** Neither a trailer nor a whole block stands here. */
  ghost predicate NoBlockAt(d: seq<Byte>, e: nat) {
    && (e < |d| ==> d[e] != 0x3B)
    && forall b :: WellFormedBlock(b) ==> !At(d, e, EncodeBlock(b))
  }

  /** What makes the walk stop without a trailer: the end of the data, another byte, or a block that goes on past
      the end of the data. */
  ghost predicate Stops(d: seq<Byte>, e: nat) {
    || e >= |d|
    || (d[e] != TRAILER && d[e] != IMAGE && d[e] != EXTENSION)
    || (d[e] == IMAGE && (|| e + 10 > |d| || e + 10 + TableSize(d[e + 9]) >= |d|
                          || SkipSubBlocks(d, e + 11 + TableSize(d[e + 9])) >= |d|))
    || (d[e] == EXTENSION && (e + 2 > |d| || SkipSubBlocks(d, e + 2) >= |d|))
  }

  lemma {:induction false} StopsIsNoBlock(d: seq<Byte>, e: nat)
    requires Stops(d, e)
    ensures NoBlockAt(d, e)
    ensures Walk(d, e) == Parsed(Promising, StopSize(d, e))
  {
    forall b | WellFormedBlock(b)
      ensures !At(d, e, EncodeBlock(b))
    {
      if At(d, e, EncodeBlock(b)) {
        BlockIsWhole(d, e, b);
      }
    }
    StopsWith(d, e);
  }

  /** The size reported where no block is whole: that place, or where the colour table or the sub-blocks of an image
      that is cut off, or the sub-blocks of an extension, would end. */
  ghost function StopSize(d: seq<Byte>, e: nat): nat {
    if e < |d| && d[e] == 0x2C && e + 10 <= |d| then
      var table := if d[e + 9] < 128 then 0 else 3 * Power2(d[e + 9] % 8 + 1);
      if e + 10 + table >= |d| then e + 10 + table else SkipSubBlocks(d, e + 11 + table) + 1
    else if e < |d| && d[e] == 0x21 && e + 2 <= |d| then SkipSubBlocks(d, e + 2) + 1
    else e
  }

  lemma {:induction false} StopsWith(d: seq<Byte>, e: nat)
    requires Stops(d, e)
    ensures Walk(d, e) == Parsed(Promising, StopSize(d, e))
  {
    hide TableSize, SkipSubBlocks, Power2;
    if e < |d| && d[e] == IMAGE && e + 10 <= |d| {
      TableIs(d[e + 9]);
    }
  }

  lemma {:induction false} TableIs(packed: Byte)
    ensures TableSize(packed) == if packed < 128 then 0 else 3 * Power2(packed % 8 + 1)
  {
    if packed >= 128 {
      var table := seq(Power2(packed % 8 + 1), _ => Colour(0, 0, 0));
      TableBytes(packed, table);
    }
  }

  lemma {:induction false} BlockIsWhole(d: seq<Byte>, e: nat, b: Block)
    requires WellFormedBlock(b) && At(d, e, EncodeBlock(b))
    ensures !Stops(d, e)
  {
    hide At, EncodeBlock, EncodeData, EncodeTable, TableSize, SkipSubBlocks, SubBlocks, Power2, Announces;
    if b.Image? {
      ImageParts(d, e, b);
      TableBytes(b.descriptor[8], b.localTable);
      var at := e + 11 + |EncodeTable(b.localTable)|;
      SkipsData(d, at, b.data);
      EndsInData(d, at, EncodeData(b.data));
    } else {
      ExtensionParts(d, e, b);
      SkipsData(d, e + 2, b.data);
      EndsInData(d, e + 2, EncodeData(b.data));
    }
  }

  lemma {:induction false} ExtensionParts(d: seq<Byte>, offset: nat, b: Block)
    requires WellFormedBlock(b) && b.Extension? && At(d, offset, EncodeBlock(b))
    ensures offset + 2 <= |d| && d[offset] == EXTENSION && At(d, offset + 2, EncodeData(b.data))
    ensures |EncodeBlock(b)| == 2 + |EncodeData(b.data)|
  {
    hide At, EncodeData, SubBlocks;
    var head := [0x21, b.extLabel];
    AtConcat(d, offset, head, EncodeData(b.data));
    AtByte(d, offset, head, 0);
    AtByte(d, offset, head, 1);
  }

  lemma {:induction false} RunCons(first: Block, rest: seq<Block>)
    requires WellFormedBlock(first) && forall i :: 0 <= i < |rest| ==> WellFormedBlock(rest[i])
    ensures EncodeRun([first] + rest) == EncodeBlock(first) + EncodeRun(rest)
  {
    assert ([first] + rest)[1..] == rest;
  }

  lemma {:induction false} PassBlock(d: seq<Byte>, offset: nat) returns (b: Block)
    requires !Stops(d, offset) && d[offset] != TRAILER
    ensures WellFormedBlock(b) && At(d, offset, EncodeBlock(b)) && |EncodeBlock(b)| > 0
    ensures Walk(d, offset) == Walk(d, offset + |EncodeBlock(b)|)
  {
    hide EncodeBlock, WellFormedBlock, SkipSubBlocks, TableSize, At;
    WalkCases(d, offset);
    hide Walk;
    if d[offset] == IMAGE {
      b := ReadImage(d, offset);
    } else {
      b := ReadExtension(d, offset);
    }
  }

  /** A walk that does not validate passes whole blocks and stops where there is none. */
  lemma {:induction false} ReadRun(d: seq<Byte>, offset: nat) returns (blocks: seq<Block>)
    requires Walk(d, offset).verdict != Validates && offset <= |d|
    ensures forall i :: 0 <= i < |blocks| ==> WellFormedBlock(blocks[i])
    ensures At(d, offset, EncodeRun(blocks)) && NoBlockAt(d, offset + |EncodeRun(blocks)|)
    ensures Walk(d, offset) == Parsed(Promising, StopSize(d, offset + |EncodeRun(blocks)|))
    decreases |d| - offset
  {
    hide Walk, Stops, StopSize, At, EncodeBlock, EncodeRun, WellFormedBlock, NoBlockAt;
    if Stops(d, offset) {
      blocks := [];
      EmptyRun(d, offset);
      StopsIsNoBlock(d, offset);
    } else {
      PassesTrailer(d, offset);
      var first := PassBlock(d, offset);
      BlockInside(d, offset, first);
      var rest := ReadRun(d, offset + |EncodeBlock(first)|);
      blocks := [first] + rest;
      RunCons(first, rest);
      AtConcat(d, offset, EncodeBlock(first), EncodeRun(rest));
    }
  }

  lemma {:induction false} EmptyRun(d: seq<Byte>, offset: nat)
    requires offset <= |d|
    ensures At(d, offset, EncodeRun([])) && |EncodeRun([])| == 0
  {
  }

  lemma {:induction false} PassesTrailer(d: seq<Byte>, offset: nat)
    requires Walk(d, offset).verdict != Validates && !Stops(d, offset)
    ensures offset < |d| && d[offset] != TRAILER
  {
  }

  lemma {:induction false} BlockInside(d: seq<Byte>, offset: nat, b: Block)
    requires WellFormedBlock(b) && At(d, offset, EncodeBlock(b))
    ensures offset + |EncodeBlock(b)| <= |d|
  {
  }

  /** Data with a signature and a whole colour table that do not validate are PROMISING: a run of whole blocks, and
      then neither a trailer nor a whole block. Without a signature, or below 14 bytes, they are INVALID. */
  lemma {:induction false} PromisingIsCutOff(d: seq<Byte>) returns (blocks: seq<Block>)
    requires Validation(d).Parsed? && Validation(d).verdict != Validates && 13 + TableSize(d[10]) <= |d|
    ensures forall i :: 0 <= i < |blocks| ==> WellFormedBlock(blocks[i])
    ensures var offset, r := 13 + TableSize(d[10]), Validation(d);
      var e := offset + |EncodeRun(blocks)|;
      At(d, offset, EncodeRun(blocks)) && NoBlockAt(d, e) && r == Parsed(Promising, StopSize(d, e))
  {
    hide Walk, StopSize, NoBlockAt, EncodeRun, WellFormedBlock;
    blocks := ReadRun(d, 13 + TableSize(d[10]));
  }

  /** A global colour table that goes on past the data leaves nothing but its size. */
  lemma {:induction false} TableCutOff(d: seq<Byte>)
    requires Validation(d).Parsed? && 13 + TableSize(d[10]) > |d|
    ensures Validation(d) == Parsed(Promising, 13 + TableSize(d[10]))
  {
    hide TableSize;
  }

  lemma {:induction false} UnparsedIff(d: seq<Byte>)
    ensures Validation(d).Unparsed? <==> |d| < 14 || (d[..6] != Ascii("GIF87a") && d[..6] != Ascii("GIF89a"))
  {
    Signatures();
    hide Ascii;
  }

  // ---------- main results ----------

  /** VALIDATES with size p, if and only if the first p bytes are the encoding of a GIF data stream. */
  lemma {:induction false} ValidatesIffStream(d: seq<Byte>, p: nat)
    ensures Validation(d) == Parsed(Validates, p)
       <==> exists s :: WellFormed(s) && Encode(s) <= d && |Encode(s)| == p
  {
    if Validation(d) == Parsed(Validates, p) {
      var s := ReadStream(d);
    }
    if s :| WellFormed(s) && Encode(s) <= d && |Encode(s)| == p {
      AcceptsStream(d, s);
    }
  }

  /** The verdict depends on the carved bytes only: whatever follows them, or nothing. */
  lemma {:induction false} VerdictIsLocal(d: seq<Byte>, p: nat, suffix: seq<Byte>)
    requires Validation(d) == Parsed(Validates, p)
    ensures p <= |d| && Validation(d[..p] + suffix) == Parsed(Validates, p)
  {
    var s := ReadStream(d);
    AcceptsStream(d[..p] + suffix, s);
  }
}
