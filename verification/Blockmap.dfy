/** The block map: a committed array and the shadow array that workers write, merged by copying. */
module Blockmaps {
  import opened Bytes
  import opened Counting
  import opened DuplicateForest

  /** The image block as `file_mirror_read_block` delivers it. */
  datatype Read = Data(bytes: seq<Byte>) | Failed

  datatype Outcome = Ok | InvalidArg

  const EMPTY := Entry(false, false, false, false, 0, 0, "", false)

  predicate AllZero(bytes: seq<Byte>) {
    forall i :: 0 <= i < |bytes| ==> bytes[i] == 0
  }

  /** The hash field holds 64 characters and the terminator. */
  function Fit(hash: string): string {
    if |hash| <= 64 then hash else hash[..64]
  }

  /** One block after hashing: a failed read leaves it as it was. */
  function HashBlock(e: Entry, r: Read, sha: seq<Byte> -> string): Entry {
    match r
    case Failed => e
    case Data(bytes) => e.(hash := Fit(sha(bytes)), hashComputed := true, isZero := AllZero(bytes))
  }

  /** What is stored of a hash: all of it up to 64 characters, otherwise the first 64. */
  lemma {:induction false} StoredHash(hash: string)
    ensures |hash| <= 64 ==> Fit(hash) == hash
    ensures |hash| > 64 ==> |Fit(hash)| == 64 && forall i :: 0 <= i < 64 ==> Fit(hash)[i] == hash[i]
  {
  }

  /** SHA-256 in hexadecimal has 64 characters. */
  ghost predicate HexDigest(sha: seq<Byte> -> string) {
    forall bytes :: |sha(bytes)| == 64
  }

  /** Everything of a block but what hashing computes. */
  ghost predicate SameButHash(e: Entry, f: Entry) {
    && f.covered == e.covered && f.isDuplicate == e.isDuplicate && f.isExemplar == e.isExemplar
    && f.exemplarBlock == e.exemplarBlock && f.reservationCount == e.reservationCount
  }

  function ReadOf(blocks: seq<Read>, i: nat): Read {
    if i < |blocks| then blocks[i] else Failed
  }

  /** The whole map after hashing, block by block; blocks past the mirror's end fail to read. */
  function HashBlocks(m: seq<Entry>, blocks: seq<Read>, sha: seq<Byte> -> string): (r: seq<Entry>)
    ensures |r| == |m|
    ensures forall i :: 0 <= i < |m| ==> r[i] == HashBlock(m[i], ReadOf(blocks, i), sha)
  {
    seq(|m|, i requires 0 <= i < |m| => HashBlock(m[i], ReadOf(blocks, i), sha))
  }

  predicate IsCovered(e: Entry) { e.covered }

  class Blockmap {
    var primary: array<Entry>
    var shadow: array<Entry>
    var blockCount: nat

    ghost predicate Valid()
      reads this
    {
      blockCount > 0 && primary.Length == blockCount && shadow.Length == blockCount && primary != shadow
    }

    constructor (blockCount: nat)
      requires blockCount > 0
      ensures Valid() && fresh(primary) && fresh(shadow) && this.blockCount == blockCount
      ensures primary[..] == shadow[..] == seq(blockCount, _ => EMPTY)
    {
      this.blockCount := blockCount;
      primary := new Entry[blockCount](_ => EMPTY);
      shadow := new Entry[blockCount](_ => EMPTY);
    }

    /** `blockmap_create`: a map of no blocks is refused; `memory` is the allocator's answer. */
    static method Create(blockCount: nat, memory: bool) returns (bm: Blockmap?)
      ensures bm == null <==> blockCount == 0 || !memory
      ensures bm != null ==> fresh(bm) && bm.Valid() && bm.blockCount == blockCount
      ensures bm != null ==> fresh(bm.primary) && fresh(bm.shadow)
      ensures bm != null ==> bm.primary[..] == bm.shadow[..] == seq(blockCount, _ => EMPTY)
      ensures bm != null ==> forall b :: 0 <= b < blockCount ==>
        var e := bm.primary[b];
        && !e.covered && !e.isDuplicate && !e.isExemplar && !e.isZero && !e.hashComputed
        && e.hash == "" && e.reservationCount == 0 && e.exemplarBlock == 0
    {
      if blockCount == 0 || !memory {
        return null;
      }
      bm := new Blockmap(blockCount);
    }

    method SetCovered(block: nat, covered: bool) returns (outcome: Outcome)
      requires Valid()
      modifies shadow
      ensures outcome == if block < blockCount then Ok else InvalidArg
      ensures shadow[..] == if outcome == Ok
          then old(shadow[..])[block := old(shadow[..])[block].(covered := covered)] else old(shadow[..])
    {
      if block >= blockCount {
        return InvalidArg;
      }
      shadow[block] := shadow[block].(covered := covered);
      outcome := Ok;
    }

    method SetHash(block: nat, hash: string) returns (outcome: Outcome)
      requires Valid()
      modifies shadow
      ensures outcome == if block < blockCount then Ok else InvalidArg
      ensures shadow[..] == if outcome == Ok
                            then var e := old(shadow[..])[block];
                              old(shadow[..])[block := e.(hash := Fit(hash), hashComputed := true)]
                            else old(shadow[..])
      ensures outcome == Ok ==> shadow[block].hash == if |hash| <= 64 then hash else hash[..64]
    {
      if block >= blockCount {
        return InvalidArg;
      }
      shadow[block] := shadow[block].(hash := Fit(hash), hashComputed := true);
      outcome := Ok;
    }

    method SetZero(block: nat, isZero: bool) returns (outcome: Outcome)
      requires Valid()
      modifies shadow
      ensures outcome == if block < blockCount then Ok else InvalidArg
      ensures shadow[..] == if outcome == Ok
          then old(shadow[..])[block := old(shadow[..])[block].(isZero := isZero)] else old(shadow[..])
    {
      if block >= blockCount {
        return InvalidArg;
      }
      shadow[block] := shadow[block].(isZero := isZero);
      outcome := Ok;
    }

    /** A release without a reservation changes nothing. */
    method Release(block: nat) returns (outcome: Outcome)
      requires Valid()
      modifies shadow
      ensures outcome == if block < blockCount then Ok else InvalidArg
      ensures shadow[..] == if outcome == Ok && old(shadow[..])[block].reservationCount > 0
                            then var e := old(shadow[..])[block];
                              old(shadow[..])[block := e.(reservationCount := e.reservationCount - 1)]
                            else old(shadow[..])
    {
      if block >= blockCount {
        return InvalidArg;
      }
      if shadow[block].reservationCount > 0 {
        shadow[block] := shadow[block].(reservationCount := shadow[block].reservationCount - 1);
      }
      outcome := Ok;
    }

    method MergeShadow()
      requires Valid()
      modifies primary
      ensures primary[..] == shadow[..] == old(shadow[..])
    {
      forall i | 0 <= i < blockCount {
        primary[i] := shadow[i];
      }
    }

    /** `blocks` are the mirror's answers to the reads, block by block. A block that is read gets its hash and its
        zero flag, one that cannot be read stays, and nothing else changes. */
    method ComputeHashes(blocks: seq<Read>, sha: seq<Byte> -> string)
      requires Valid()
      modifies primary, shadow
      ensures primary[..] == shadow[..] == HashBlocks(old(shadow[..]), blocks, sha)
      ensures forall b :: 0 <= b < blockCount ==> SameButHash(old(shadow[..])[b], shadow[b])
      ensures forall b :: 0 <= b < blockCount && (b >= |blocks| || blocks[b].Failed?) ==>
        shadow[b] == old(shadow[..])[b]
      ensures forall b :: 0 <= b < blockCount && b < |blocks| && blocks[b].Data? ==>
        && shadow[b].hashComputed
        && (|sha(blocks[b].bytes)| <= 64 ==> shadow[b].hash == sha(blocks[b].bytes))
        && (shadow[b].isZero <==> forall i :: 0 <= i < |blocks[b].bytes| ==> blocks[b].bytes[i] == 0)
    {
      ghost var before := shadow[..];
      var i := 0;
      while i < blockCount
        invariant i <= blockCount
        invariant forall k :: 0 <= k < i ==> shadow[k] == HashBlock(before[k], ReadOf(blocks, k), sha)
        invariant forall k :: i <= k < blockCount ==> shadow[k] == before[k]
      {
        if i < |blocks| && blocks[i].Data? {
          var bytes := blocks[i].bytes;
          var isZero := true;
          var j := 0;
          while j < |bytes|
            invariant j <= |bytes| && isZero
            invariant forall k :: 0 <= k < j ==> bytes[k] == 0
          {
            if bytes[j] != 0 {
              isZero := false;
              break;
            }
            j := j + 1;
          }
          assert isZero == AllZero(bytes);
          var _ := SetHash(i, sha(bytes));
          var _ := SetZero(i, isZero);
        }
        i := i + 1;
      }
      MergeShadow();
    }

    /** Fill the sort buffer from the committed map. */
    method Collect() returns (entries: array<HashEntry>, validCount: nat)
      requires Valid()
      ensures fresh(entries) && validCount <= entries.Length
      ensures entries[..validCount] == Collected(primary[..], |primary[..]|)
    {
      entries := new HashEntry[blockCount](_ => HashEntry(0, ""));
      validCount := 0;
      var i := 0;
      while i < blockCount
        invariant i <= blockCount && validCount <= i
        invariant entries[..validCount] == Collected(primary[..], i)
      {
        if primary[i].hashComputed && !primary[i].isZero {
          entries[validCount] := HashEntry(i, primary[i].hash);
          validCount := validCount + 1;
        }
        i := i + 1;
      }
    }

    /** `sorted` is what the library's sort makes of the buffer; it may order ties as it likes. */
    method FindDuplicatesInMap(sorted: seq<HashEntry>)
      requires Valid() && SortOf(primary[..], sorted)
      modifies primary, shadow
      ensures primary[..] == shadow[..] == FindDuplicates(old(shadow[..]), sorted)
    {
      var entries, validCount := Collect();
      assert multiset(sorted) == multiset(entries[..validCount]);
      assert |multiset(sorted)| == |multiset(entries[..validCount])|;
      Sort(entries, validCount, sorted);
      LinkShadow(entries, validCount);
      MergeShadow();
    }

    /** The linking loop over the sorted buffer. */
    method LinkShadow(entries: array<HashEntry>, validCount: nat)
      requires Valid() && validCount <= entries.Length && InRange(shadow[..], entries[..validCount])
      modifies shadow
      ensures shadow[..] == FindDuplicates(old(shadow[..]), entries[..validCount])
    {
      ghost var before, sorted := shadow[..], entries[..validCount];
      var i := 1;
      while i < validCount
        invariant 1 <= i && (validCount > 0 ==> i <= validCount)
        invariant shadow[..] == Linked(before, sorted, if validCount == 0 then 0 else i)
      {
        assert entries[i] == sorted[i] && entries[i - 1] == sorted[i - 1];
        if entries[i].hash == entries[i - 1].hash {
          var exemplar := entries[i - 1].block;
          var duplicate := entries[i].block;
          shadow[exemplar] := shadow[exemplar].(isExemplar := true);
          shadow[duplicate] := shadow[duplicate].(isDuplicate := true);
          shadow[duplicate] := shadow[duplicate].(exemplarBlock := exemplar);
        }
        i := i + 1;
      }
    }

    /** The library sort, writing its result over the buffer. */
    static method Sort(entries: array<HashEntry>, n: nat, sorted: seq<HashEntry>)
      requires n <= entries.Length && |sorted| == n
      modifies entries
      ensures entries[..n] == sorted
    {
      forall i | 0 <= i < n {
        entries[i] := sorted[i];
      }
    }

    method DuplicateCountOf() returns (count: nat)
      requires Valid()
      ensures count == Count(primary[..], IsDuplicate)
      ensures count == |set b | 0 <= b < blockCount && primary[b].isDuplicate|
    {
      count := 0;
      var i := 0;
      while i < blockCount
        invariant i <= blockCount && count == Count(primary[..][..i], IsDuplicate)
      {
        CountSnoc(primary[..], i, IsDuplicate);
        if primary[i].isDuplicate {
          count := count + 1;
        }
        i := i + 1;
      }
      assert primary[..][..i] == primary[..];
      CountIsSize(primary[..], IsDuplicate);
      assert Places(primary[..], blockCount, IsDuplicate) == set b | 0 <= b < blockCount && primary[b].isDuplicate;
    }

    method CoveredCount() returns (count: nat)
      requires Valid()
      ensures count == |set b | 0 <= b < blockCount && primary[b].covered|
    {
      count := 0;
      var i := 0;
      while i < blockCount
        invariant i <= blockCount && count == Count(primary[..][..i], IsCovered)
      {
        CountSnoc(primary[..], i, IsCovered);
        if primary[i].covered {
          count := count + 1;
        }
        i := i + 1;
      }
      assert primary[..][..i] == primary[..];
      CountIsSize(primary[..], IsCovered);
      assert Places(primary[..], blockCount, IsCovered) == set b | 0 <= b < blockCount && primary[b].covered;
    }
  }

  // ---------- hashing and linking together ----------

  /** The block was read and is not all zero. */
  predicate Content(blocks: seq<Read>, b: nat) {
    b < |blocks| && blocks[b].Data? && exists i :: 0 <= i < |blocks[b].bytes| && blocks[b].bytes[i] != 0
  }

  /** A new map, hashed and linked. */
  function HashedAndLinked(n: nat, blocks: seq<Read>, sha: seq<Byte> -> string, sorted: seq<HashEntry>): seq<Entry>
    requires SortOf(HashBlocks(seq(n, _ => EMPTY), blocks, sha), sorted)
  {
    FindDuplicates(HashBlocks(seq(n, _ => EMPTY), blocks, sha), sorted)
  }

  /** Two readable non-zero blocks of a new map end at the same root exactly when their stored hashes agree, and
      their root is such a block too: zero and unreadable blocks stay out of it. */
  lemma {:induction false} SameRootIffSameStored(n: nat, blocks: seq<Read>, sha: seq<Byte> -> string,
        sorted: seq<HashEntry>, a: nat, b: nat)
    requires a < n && b < n && Content(blocks, a) && Content(blocks, b)
    requires SortOf(HashBlocks(seq(n, _ => EMPTY), blocks, sha), sorted)
    ensures var r := HashedAndLinked(n, blocks, sha, sorted);
      && (Root(r, a) == Root(r, b) <==> Fit(sha(blocks[a].bytes)) == Fit(sha(blocks[b].bytes)))
      && Content(blocks, Root(r, a))
  {
    var m := HashBlocks(seq(n, _ => EMPTY), blocks, sha);
    SameRootIffSameHash(m, sorted, a, b);
    ChainsEnd(m, sorted, a);
  }

  /** For a hash of 64 characters: the same root exactly when the hashes of the two blocks agree, hence exactly
      when their bytes agree unless these are a collision. */
  lemma {:induction false} SameRootIffSameContent(n: nat, blocks: seq<Read>, sha: seq<Byte> -> string,
        sorted: seq<HashEntry>, a: nat, b: nat)
    requires a < n && b < n && Content(blocks, a) && Content(blocks, b) && HexDigest(sha)
    requires SortOf(HashBlocks(seq(n, _ => EMPTY), blocks, sha), sorted)
    ensures var r := HashedAndLinked(n, blocks, sha, sorted);
      && (Root(r, a) == Root(r, b) <==> sha(blocks[a].bytes) == sha(blocks[b].bytes))
      && ((sha(blocks[a].bytes) == sha(blocks[b].bytes) ==> blocks[a].bytes == blocks[b].bytes) ==>
            (Root(r, a) == Root(r, b) <==> blocks[a].bytes == blocks[b].bytes))
      && Content(blocks, Root(r, a))
  {
    SameRootIffSameStored(n, blocks, sha, sorted, a, b);
    StoredHash(sha(blocks[a].bytes));
    StoredHash(sha(blocks[b].bytes));
  }

  /** Any map can be hashed and linked: some sort order always exists, and zero or unreadable
      blocks are left untouched by linking. */
  lemma {:induction false} LinkingIsAlwaysPossible(m: seq<Entry>) returns (sorted: seq<HashEntry>)
    ensures SortOf(m, sorted)
    ensures forall b :: 0 <= b < |m| && (!m[b].hashComputed || m[b].isZero) ==> FindDuplicates(m, sorted)[b] == m[b]
  {
    sorted := SortExists(m, |m|);
    assert SortOf(m, sorted);
    forall b | 0 <= b < |m| && !Hashed(m, b)
      ensures FindDuplicates(m, sorted)[b] == m[b]
    {
      SortedBlocks(m, sorted);
      LinkedElsewhere(m, sorted, |sorted|, b);
    }
  }
}
