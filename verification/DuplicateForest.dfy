/**
 Duplicate detection as the block map does it: sort the hashed non-zero blocks by hash, then link
 each block to its predecessor in the sort when the hashes agree. The links make chains, not stars;
 this module says what the chains mean, for every order that a sort may give to equal hashes.
 */
module DuplicateForest {
  import opened Counting

  datatype Entry = Entry(
    covered: bool,
    isDuplicate: bool,
    isExemplar: bool,
    isZero: bool,
    exemplarBlock: nat,
    reservationCount: nat,
    hash: string,
    hashComputed: bool)

  datatype HashEntry = HashEntry(block: nat, hash: string)

  // ---------- the order of the sort ----------

  /** `strcmp(a, b) <= 0`. */
  predicate NotAfter(a: string, b: string) {
    a == [] || (b != [] && (a[0] < b[0] || (a[0] == b[0] && NotAfter(a[1..], b[1..]))))
  }

  /** The texts first differ at `i`, where the first has the smaller character. */
  ghost predicate SmallerAt(a: string, b: string, i: nat) {
    i < |a| && i < |b| && a[..i] == b[..i] && a[i] < b[i]
  }

  lemma {:induction false} SmallerCons(a: string, b: string, i: nat)
    requires a != [] && b != [] && a[0] == b[0]
    ensures SmallerAt(a, b, i + 1) <==> SmallerAt(a[1..], b[1..], i)
  {
    if i + 1 <= |a| && i + 1 <= |b| {
      assert a[..i + 1] == [a[0]] + a[1..][..i] && b[..i + 1] == [b[0]] + b[1..][..i];
      assert a[..i + 1][1..] == a[1..][..i] && b[..i + 1][1..] == b[1..][..i];
    }
  }

  lemma {:induction false} PrefixCons(a: string, b: string)
    requires a != [] && b != [] && a[0] == b[0]
    ensures a <= b <==> a[1..] <= b[1..]
  {
    assert a == [a[0]] + a[1..] && b == [b[0]] + b[1..];
    if a <= b {
      assert a[1..] == b[..|a|][1..] == b[1..][..|a| - 1];
    }
  }

  ghost predicate SmallerSomewhere(a: string, b: string) {
    exists i: nat :: SmallerAt(a, b, i)
  }

  lemma {:induction false} SmallerSomewhereCons(a: string, b: string)
    requires a != [] && b != [] && a[0] == b[0]
    ensures SmallerSomewhere(a, b) <==> SmallerSomewhere(a[1..], b[1..])
  {
    if i: nat :| SmallerAt(a[1..], b[1..], i) {
      SmallerCons(a, b, i);
    }
    if i: nat :| SmallerAt(a, b, i) {
      assert i > 0;
      SmallerCons(a, b, i - 1);
    }
  }

  lemma {:induction false} FirstChars(a: string, b: string, i: nat)
    requires SmallerAt(a, b, i)
    ensures a[0] <= b[0]
  {
    assert i > 0 ==> a[..i][0] == b[..i][0];
  }

  lemma {:induction false} DifferFirst(a: string, b: string)
    requires a != [] && b != [] && a[0] != b[0]
    ensures !(a <= b) && (SmallerSomewhere(a, b) <==> a[0] < b[0])
  {
    if a[0] < b[0] {
      assert SmallerAt(a, b, 0);
    }
    if i: nat :| SmallerAt(a, b, i) {
      FirstChars(a, b, i);
    }
  }

  /** `strcmp`: the first is a prefix of the second, or smaller where they first differ. */
  lemma {:induction false} NotAfterIsLexicographic(a: string, b: string)
    ensures NotAfter(a, b) <==> a <= b || SmallerSomewhere(a, b)
  {
    hide SmallerSomewhere;
    if a == [] || b == [] {
      NothingSmaller(a, b);
    } else if a[0] == b[0] {
      NotAfterIsLexicographic(a[1..], b[1..]);
      PrefixCons(a, b);
      SmallerSomewhereCons(a, b);
    } else {
      DifferFirst(a, b);
    }
  }

  lemma {:induction false} NothingSmaller(a: string, b: string)
    requires a == [] || b == []
    ensures !SmallerSomewhere(a, b)
  {
  }

  lemma {:induction false} NotAfterTransitive(a: string, b: string, c: string)
    requires NotAfter(a, b) && NotAfter(b, c)
    ensures NotAfter(a, c)
  {
    if a != [] && a[0] == b[0] == c[0] {
      NotAfterTransitive(a[1..], b[1..], c[1..]);
    }
  }

  lemma {:induction false} NotAfterAntisymmetric(a: string, b: string)
    requires NotAfter(a, b) && NotAfter(b, a)
    ensures a == b
  {
    if a != [] {
      NotAfterAntisymmetric(a[1..], b[1..]);
      assert a == [a[0]] + a[1..] && b == [b[0]] + b[1..];
    }
  }

  lemma {:induction false} NotAfterTotal(a: string, b: string)
    ensures NotAfter(a, b) || NotAfter(b, a)
  {
    if a != [] && b != [] && a[0] == b[0] {
      NotAfterTotal(a[1..], b[1..]);
    }
  }

  ghost predicate Sorted(s: seq<HashEntry>) {
    forall i, j :: 0 <= i < j < |s| ==> NotAfter(s[i].hash, s[j].hash)
  }

  // ---------- which blocks take part ----------

  predicate Hashed(m: seq<Entry>, b: nat) {
    b < |m| && m[b].hashComputed && !m[b].isZero
  }

  /** The sort buffer before the sort: the hashed non-zero blocks in block order. */
  function Collected(m: seq<Entry>, n: nat): seq<HashEntry>
    requires n <= |m|
  {
    if n == 0 then []
    else Collected(m, n - 1) + (if Hashed(m, n - 1) then [HashEntry(n - 1, m[n - 1].hash)] else [])
  }

  ghost predicate InRange(m: seq<Entry>, s: seq<HashEntry>) {
    forall i :: 0 <= i < |s| ==> s[i].block < |m|
  }

  /** What `qsort` may leave in the buffer: any sorted rearrangement, ties in any order. */
  ghost predicate SortOf(m: seq<Entry>, s: seq<HashEntry>)
    ensures SortOf(m, s) ==> InRange(m, s)
  {
    if multiset(s) == multiset(Collected(m, |m|)) && Sorted(s) then
      RearrangedInRange(m, s);
      true
    else false
  }

  lemma {:induction false} RearrangedInRange(m: seq<Entry>, s: seq<HashEntry>)
    requires multiset(s) == multiset(Collected(m, |m|))
    ensures InRange(m, s)
  {
    forall i | 0 <= i < |s|
      ensures s[i].block < |m|
    {
      CollectedContents(m, |m|, s[i]);
      assert s[i] in multiset(s);
    }
  }

  lemma {:induction false} OneMore(s: seq<HashEntry>, last: HashEntry, e: HashEntry)
    ensures multiset(s + [last])[e] == multiset(s)[e] + (if last == e then 1 else 0)
  {
    assert multiset(s + [last]) == multiset(s) + multiset([last]);
  }

  lemma {:induction false} CollectedStep(m: seq<Entry>, n: nat)
    requires 0 < n <= |m|
    ensures Collected(m, n) == if Hashed(m, n - 1)
                               then Collected(m, n - 1) + [HashEntry(n - 1, m[n - 1].hash)]
                               else Collected(m, n - 1)
  {
    assert Collected(m, n - 1) + [] == Collected(m, n - 1);
  }

  lemma {:induction false} NoneCollected(m: seq<Entry>)
    ensures Collected(m, 0) == []
  {
  }

  /** The entry is that of a block before `n` with a hash, not zero. */
  ghost predicate Listed(m: seq<Entry>, n: nat, e: HashEntry)
    requires n <= |m|
  {
    e.block < n && m[e.block].hashComputed && !m[e.block].isZero && e.hash == m[e.block].hash
  }

  /** The buffer holds, in block order, exactly the blocks with a hash that are not zero, with their hashes. */
  lemma {:induction false} CollectedIs(m: seq<Entry>, n: nat)
    requires n <= |m|
    ensures forall e :: e in Collected(m, n) <==> Listed(m, n, e)
    ensures forall i, j :: 0 <= i < j < |Collected(m, n)| ==> Collected(m, n)[i].block < Collected(m, n)[j].block
  {
    hide Collected, Listed, Hashed;
    if n == 0 {
      NoneCollected(m);
      NothingListed(m);
    } else {
      CollectedIs(m, n - 1);
      CollectedStep(m, n);
      var before, now := Collected(m, n - 1), Collected(m, n);
      forall e ensures e in now <==> Listed(m, n, e) {
        ListedStep(m, n, e);
        assert e in now <==> e in before || (Hashed(m, n - 1) && e == HashEntry(n - 1, m[n - 1].hash));
      }
      forall i | 0 <= i < |before| ensures before[i].block < n - 1 {
        assert before[i] in before;
        ListedBelow(m, n - 1, before[i]);
      }
    }
  }

  lemma {:induction false} NothingListed(m: seq<Entry>)
    ensures forall e :: !Listed(m, 0, e)
  {
  }

  lemma {:induction false} ListedBelow(m: seq<Entry>, n: nat, e: HashEntry)
    requires n <= |m| && Listed(m, n, e)
    ensures e.block < n
  {
  }

  lemma {:induction false} ListedStep(m: seq<Entry>, n: nat, e: HashEntry)
    requires 0 < n <= |m|
    ensures Listed(m, n, e)
       <==> Listed(m, n - 1, e) || (Hashed(m, n - 1) && e == HashEntry(n - 1, m[n - 1].hash))
  {
  }

  lemma {:induction false} CollectedContents(m: seq<Entry>, n: nat, e: HashEntry)
    requires n <= |m|
    ensures multiset(Collected(m, n))[e]
         == if e.block < n && Hashed(m, e.block) && e.hash == m[e.block].hash then 1 else 0
  {
    hide Hashed, Collected;
    if n > 0 {
      CollectedContents(m, n - 1, e);
      CollectedStep(m, n);
      OneMore(Collected(m, n - 1), HashEntry(n - 1, m[n - 1].hash), e);
    } else {
      NoneCollected(m);
    }
  }

  /** Each hashed non-zero block is in the sorted buffer exactly once, with its own hash. */
  lemma {:induction false} SortedBlocks(m: seq<Entry>, s: seq<HashEntry>)
    requires SortOf(m, s)
    ensures forall i :: 0 <= i < |s| ==> Hashed(m, s[i].block) && s[i].hash == m[s[i].block].hash
    ensures forall i, j :: 0 <= i < j < |s| ==> s[i].block != s[j].block
    ensures forall b :: Hashed(m, b) ==> exists i :: 0 <= i < |s| && s[i].block == b
  {
    forall i | 0 <= i < |s|
      ensures Hashed(m, s[i].block) && s[i].hash == m[s[i].block].hash
    {
      CollectedContents(m, |m|, s[i]);
      assert s[i] in multiset(s);
    }
    forall i, j | 0 <= i < j < |s|
      ensures s[i].block != s[j].block
    {
      CollectedContents(m, |m|, s[i]);
      assert s == s[..j] + s[j..];
      assert s[i] in multiset(s[..j]);
      assert s[j] in multiset(s[j..]);
    }
    forall b: nat | Hashed(m, b)
      ensures exists i :: 0 <= i < |s| && s[i].block == b
    {
      CollectedContents(m, |m|, HashEntry(b, m[b].hash));
      assert HashEntry(b, m[b].hash) in multiset(s);
    }
  }

  // ---------- a sort exists ----------

  function Insert(s: seq<HashEntry>, e: HashEntry): seq<HashEntry> {
    if s == [] || NotAfter(e.hash, s[0].hash) then [e] + s else [s[0]] + Insert(s[1..], e)
  }

  lemma {:induction false} SortedPrepend(e: HashEntry, s: seq<HashEntry>)
    requires Sorted(s) && forall j :: 0 <= j < |s| ==> NotAfter(e.hash, s[j].hash)
    ensures Sorted([e] + s)
  {
    hide NotAfter;
  }

  lemma {:induction false} HeadIsFirst(s: seq<HashEntry>)
    requires Sorted(s) && s != []
    ensures Sorted(s[1..]) && forall j :: 0 < j < |s| ==> NotAfter(s[0].hash, s[j].hash)
  {
    hide NotAfter;
  }

  lemma {:induction false} InsertContents(s: seq<HashEntry>, e: HashEntry)
    ensures multiset(Insert(s, e)) == multiset(s) + multiset{e}
  {
    hide NotAfter;
    if s != [] && !NotAfter(e.hash, s[0].hash) {
      InsertContents(s[1..], e);
      assert s == [s[0]] + s[1..];
    }
  }

  lemma {:induction false} InsertSorts(s: seq<HashEntry>, e: HashEntry)
    requires Sorted(s)
    ensures Sorted(Insert(s, e)) && multiset(Insert(s, e)) == multiset(s) + multiset{e}
  {
    hide NotAfter, Sorted;
    InsertContents(s, e);
    if s == [] {
      NoneSorted();
      SortedPrepend(e, []);
    } else {
      HeadIsFirst(s);
      NotAfterTotal(e.hash, s[0].hash);
      if NotAfter(e.hash, s[0].hash) {
        forall j | 0 <= j < |s| ensures NotAfter(e.hash, s[j].hash) {
          if j > 0 {
            NotAfterTransitive(e.hash, s[0].hash, s[j].hash);
          }
        }
        SortedPrepend(e, s);
      } else {
        InsertSorts(s[1..], e);
        StillFirst(s, e);
        SortedPrepend(s[0], Insert(s[1..], e));
      }
    }
  }

  lemma {:induction false} NoneSorted()
    ensures Sorted([])
  {
  }

  lemma {:induction false} StillFirst(s: seq<HashEntry>, e: HashEntry)
    requires s != [] && NotAfter(s[0].hash, e.hash)
    requires forall j :: 0 < j < |s| ==> NotAfter(s[0].hash, s[j].hash)
    ensures var t := Insert(s[1..], e);
      forall j :: 0 <= j < |t| ==> NotAfter(s[0].hash, t[j].hash)
  {
    hide NotAfter, Insert;
    InsertContents(s[1..], e);
    var t := Insert(s[1..], e);
    forall j | 0 <= j < |t| ensures NotAfter(s[0].hash, t[j].hash) {
      assert t[j] in multiset(t);
      if t[j] != e {
        assert t[j] in s[1..];
      }
    }
  }

  lemma {:induction false} SortExists(m: seq<Entry>, n: nat) returns (s: seq<HashEntry>)
    requires n <= |m|
    ensures Sorted(s) && multiset(s) == multiset(Collected(m, n))
  {
    hide NotAfter, Sorted, Insert, Hashed, Collected;
    if n == 0 {
      s := [];
      NoneSorted();
      NoneCollected(m);
    } else {
      s := SortExists(m, n - 1);
      CollectedStep(m, n);
      if Hashed(m, n - 1) {
        InsertSorts(s, HashEntry(n - 1, m[n - 1].hash));
        s := Insert(s, HashEntry(n - 1, m[n - 1].hash));
      }
    }
  }

  // ---------- linking ----------

  /** One turn of the linking loop, at position `i` of the sorted buffer. */
  function LinkAt(m: seq<Entry>, s: seq<HashEntry>, i: nat): (r: seq<Entry>)
    requires 0 < i < |s| && s[i - 1].block < |m| && s[i].block < |m|
    ensures |r| == |m|
  {
    if s[i].hash == s[i - 1].hash then
      var exemplar, duplicate := s[i - 1].block, s[i].block;
      var m1 := m[exemplar := m[exemplar].(isExemplar := true)];
      m1[duplicate := m1[duplicate].(isDuplicate := true, exemplarBlock := exemplar)]
    else m
  }

  /** The map after the first `k` positions of the buffer have been looked at. */
  function Linked(m: seq<Entry>, s: seq<HashEntry>, k: nat): (r: seq<Entry>)
    requires k <= |s| && InRange(m, s)
    ensures |r| == |m|
  {
    if k <= 1 then m else LinkAt(Linked(m, s, k - 1), s, k - 1)
  }

  /** Is position `i` linked to its predecessor? */
  predicate Repeats(s: seq<HashEntry>, i: nat) {
    0 < i < |s| && s[i].hash == s[i - 1].hash
  }

  /** No block is marked yet. */
  ghost predicate Fresh(m: seq<Entry>) {
    forall b :: 0 <= b < |m| ==> !m[b].isDuplicate && !m[b].isExemplar
  }

  /** The first block of each group of equal hashes is not marked as a duplicate yet. */
  ghost predicate LeadersUnmarked(m: seq<Entry>, s: seq<HashEntry>)
    requires InRange(m, s)
  {
    forall i :: 0 <= i < |s| && !Repeats(s, i) ==> !m[s[i].block].isDuplicate
  }

  /** What the loop leaves in the block at position `i`. */
  lemma {:induction false} LinkedAt(m: seq<Entry>, s: seq<HashEntry>, k: nat, i: nat)
    requires k <= |s| && SortOf(m, s) && i < |s|
    ensures Linked(m, s, k)[s[i].block].isDuplicate <==> m[s[i].block].isDuplicate || (i < k && Repeats(s, i))
    ensures i < k && Repeats(s, i) ==> Linked(m, s, k)[s[i].block].exemplarBlock == s[i - 1].block
    ensures Linked(m, s, k)[s[i].block].isExemplar <==> m[s[i].block].isExemplar || (i + 1 < k && Repeats(s, i + 1))
  {
    hide Sorted, NotAfter, Collected, SortOf, Hashed;
    SortedBlocks(m, s);
    if k > 1 {
      LinkedAt(m, s, k - 1, i);
    }
  }

  /** The loop touches nothing but the duplicate and exemplar marks of the blocks in the buffer. */
  lemma {:induction false} LinkedElsewhere(m: seq<Entry>, s: seq<HashEntry>, k: nat, b: nat)
    requires k <= |s| && InRange(m, s) && b < |m|
    ensures (forall i :: 0 <= i < |s| ==> s[i].block != b) ==> Linked(m, s, k)[b] == m[b]
    ensures Linked(m, s, k)[b] == m[b].(isDuplicate := Linked(m, s, k)[b].isDuplicate,
              isExemplar := Linked(m, s, k)[b].isExemplar, exemplarBlock := Linked(m, s, k)[b].exemplarBlock)
  {
    if k > 1 {
      LinkedElsewhere(m, s, k - 1, b);
    }
  }

  /** The result of `blockmap_find_duplicates` on a map whose shadow and primary agree. */
  function FindDuplicates(m: seq<Entry>, s: seq<HashEntry>): (r: seq<Entry>)
    requires InRange(m, s)
    ensures |r| == |m|
  {
    Linked(m, s, |s|)
  }

  // ---------- chains ----------

  /** Follow `exemplar_block` from `b` for at most `fuel` steps. */
  ghost function Follow(m: seq<Entry>, b: nat, fuel: nat): nat
    decreases fuel
  {
    if b < |m| && m[b].isDuplicate && fuel > 0 then Follow(m, m[b].exemplarBlock, fuel - 1) else b
  }

  /** The end of the chain; a chain without repetition has fewer steps than there are blocks. */
  ghost function Root(m: seq<Entry>, b: nat): nat {
    Follow(m, b, |m|)
  }

  /** The first position of the run of equal hashes that holds `i`. */
  function RunStart(s: seq<HashEntry>, i: nat): (r: nat)
    requires i < |s|
    ensures r <= i && s[r].hash == s[i].hash && !Repeats(s, r)
  {
    if Repeats(s, i) then RunStart(s, i - 1) else i
  }

  /** In a sorted buffer, equal hashes are one run. */
  lemma {:induction false} RunsAreClasses(s: seq<HashEntry>, i: nat, j: nat)
    requires Sorted(s) && i < |s| && j < |s|
    ensures RunStart(s, i) == RunStart(s, j) <==> s[i].hash == s[j].hash
    decreases i + j
  {
    if s[i].hash == s[j].hash {
      if i < j {
        Between(s, i, j - 1, j);
        RunsAreClasses(s, i, j - 1);
      } else if j < i {
        Between(s, j, i - 1, i);
        RunsAreClasses(s, i - 1, j);
      }
    }
  }

  lemma {:induction false} Between(s: seq<HashEntry>, i: nat, k: nat, j: nat)
    requires Sorted(s) && i <= k <= j < |s| && s[i].hash == s[j].hash
    ensures s[k].hash == s[i].hash
  {
    if i < k < j {
      NotAfterAntisymmetric(s[i].hash, s[k].hash);
    }
  }

  lemma {:induction false} ChainEndsAtRunStart(m: seq<Entry>, s: seq<HashEntry>, i: nat, fuel: nat)
    requires SortOf(m, s) && LeadersUnmarked(m, s) && i < |s| && i <= fuel
    ensures Follow(FindDuplicates(m, s), s[i].block, fuel) == s[RunStart(s, i)].block
    decreases i
  {
    hide Linked, Collected, Sorted, NotAfter, Hashed;
    LinkedAt(m, s, |s|, i);
    if Repeats(s, i) {
      ChainEndsAtRunStart(m, s, i - 1, fuel - 1);
    }
  }

  /** Distinct blocks below `n` cannot number more than `n`. */
  lemma {:induction false} NoMoreEntriesThanBlocks(m: seq<Entry>, s: seq<HashEntry>)
    requires SortOf(m, s)
    ensures |s| <= |m|
  {
    CollectedLength(m, |m|);
    assert |multiset(s)| == |multiset(Collected(m, |m|))|;
  }

  lemma {:induction false} CollectedLength(m: seq<Entry>, n: nat)
    requires n <= |m|
    ensures |Collected(m, n)| <= n
    ensures |Collected(m, n)| == |set b | 0 <= b < n && Hashed(m, b)|
  {
    hide Collected, Hashed;
    var blocks := set b | 0 <= b < n && Hashed(m, b);
    if n == 0 {
      NoneCollected(m);
      assert blocks == {};
    } else {
      CollectedStep(m, n);
      CollectedLength(m, n - 1);
      var before := set b | 0 <= b < n - 1 && Hashed(m, b);
      assert blocks == if Hashed(m, n - 1) then before + {n - 1} else before;
    }
  }

  // ---------- main results ----------

  /** In the linked map `r` the chain from `b` ends at a block that is not a duplicate, itself hashed
      and non-zero, with the same hash. */
  ghost predicate EndsWell(m: seq<Entry>, r: seq<Entry>, b: nat)
    requires |r| == |m| && b < |m|
  {
    Hashed(m, Root(r, b)) && !r[Root(r, b)].isDuplicate && m[Root(r, b)].hash == m[b].hash
  }

  lemma {:induction false} ChainsEnd(m: seq<Entry>, s: seq<HashEntry>, b: nat)
    requires SortOf(m, s) && LeadersUnmarked(m, s) && Hashed(m, b)
    ensures EndsWell(m, FindDuplicates(m, s), b)
  {
    SortedBlocks(m, s);
    NoMoreEntriesThanBlocks(m, s);
    var i :| 0 <= i < |s| && s[i].block == b;
    ChainEndsAtRunStart(m, s, i, |m|);
    LinkedAt(m, s, |s|, RunStart(s, i));
  }

  /** On any map, marked before or not: every chain ends well if and only if the sort puts an unmarked
      block first in each group. On a map without marks that is always so. */
  lemma {:induction false} ChainsEndIffLeadersUnmarked(m: seq<Entry>, s: seq<HashEntry>)
    requires SortOf(m, s)
    ensures (forall b :: 0 <= b < |m| && Hashed(m, b) ==> EndsWell(m, FindDuplicates(m, s), b))
        <==> LeadersUnmarked(m, s)
    ensures Fresh(m) ==> LeadersUnmarked(m, s)
  {
    var r := FindDuplicates(m, s);
    if LeadersUnmarked(m, s) {
      forall b | 0 <= b < |m| && Hashed(m, b) ensures EndsWell(m, r, b) {
        ChainsEnd(m, s, b);
      }
    } else {
      SortedBlocks(m, s);
      var i: nat :| i < |s| && !Repeats(s, i) && m[s[i].block].isDuplicate;
      var b := s[i].block;
      if EndsWell(m, r, b) {
        var j :| 0 <= j < |s| && s[j].block == Root(r, b);
        LinkedAt(m, s, |s|, i);
        LinkedAt(m, s, |s|, j);
        RunsAreClasses(s, i, j);
      }
    }
  }

  // ---------- whatever the sort does ----------

  /** Two entries with equal hashes exchange places in a sorted buffer. */
  function Exchanged(s: seq<HashEntry>, i: nat, j: nat): seq<HashEntry>
    requires i < |s| && j < |s|
  {
    s[i := s[j]][j := s[i]]
  }

  lemma {:induction false} ExchangedIsSort(m: seq<Entry>, s: seq<HashEntry>, i: nat, j: nat)
    requires SortOf(m, s) && i < |s| && j < |s| && s[i].hash == s[j].hash
    ensures SortOf(m, Exchanged(s, i, j))
  {
    hide NotAfter, Collected, Sorted;
    var t := Exchanged(s, i, j);
    SameContents(s, i, j);
    forall k | 0 <= k < |s| ensures t[k].hash == s[k].hash {
    }
    SameHashesSorted(s, t);
  }

  lemma {:induction false} SameContents(s: seq<HashEntry>, i: nat, j: nat)
    requires i < |s| && j < |s|
    ensures multiset(Exchanged(s, i, j)) == multiset(s)
  {
  }

  lemma {:induction false} SameHashesSorted(s: seq<HashEntry>, t: seq<HashEntry>)
    requires Sorted(s) && |t| == |s| && forall k :: 0 <= k < |s| ==> t[k].hash == s[k].hash
    ensures Sorted(t)
  {
    hide NotAfter;
  }

  /** Any block can come first in its group: `qsort` may order ties as it likes. */
  lemma {:induction false} SomeSortLeadsWith(m: seq<Entry>, b: nat) returns (s: seq<HashEntry>, i: nat)
    requires Hashed(m, b)
    ensures SortOf(m, s) && i < |s| && !Repeats(s, i) && s[i].block == b
  {
    hide NotAfter, Sorted, Collected, Hashed;
    var t := SortExists(m, |m|);
    assert SortOf(m, t);
    var j := PositionOf(m, t, b);
    i := RunStart(t, j);
    ExchangedIsSort(m, t, i, j);
    s := Exchanged(t, i, j);
    assert forall k :: 0 <= k < |s| ==> s[k].hash == t[k].hash;
  }

  lemma {:induction false} PositionOf(m: seq<Entry>, s: seq<HashEntry>, b: nat) returns (i: nat)
    requires SortOf(m, s) && Hashed(m, b)
    ensures i < |s| && s[i].block == b && s[i].hash == m[b].hash
  {
    SortedBlocks(m, s);
    i :| 0 <= i < |s| && s[i].block == b;
  }

  ghost predicate AllChainsEnd(m: seq<Entry>, s: seq<HashEntry>)
    requires InRange(m, s)
  {
    forall b :: 0 <= b < |m| && Hashed(m, b) ==> EndsWell(m, FindDuplicates(m, s), b)
  }

  /** No hashed non-zero block is marked as a duplicate. */
  ghost predicate NoneMarked(m: seq<Entry>) {
    forall b :: 0 <= b < |m| && Hashed(m, b) ==> !m[b].isDuplicate
  }

  lemma {:induction false} UnmarkedLeads(m: seq<Entry>, s: seq<HashEntry>)
    requires SortOf(m, s) && NoneMarked(m)
    ensures LeadersUnmarked(m, s)
  {
    hide Sorted, NotAfter, Collected;
    SortedBlocks(m, s);
  }

  lemma {:induction false} MarkedMayLead(m: seq<Entry>, b: nat) returns (s: seq<HashEntry>)
    requires Hashed(m, b) && m[b].isDuplicate
    ensures SortOf(m, s) && !LeadersUnmarked(m, s)
  {
    hide Sorted, NotAfter, Collected, Hashed;
    var i;
    s, i := SomeSortLeadsWith(m, b);
  }

  /** What a caller can check before the call, on any map: whatever order the sort gives to ties, every chain
      ends well, if and only if no hashed non-zero block is marked as a duplicate yet. */
  lemma {:induction false} AlwaysEndsIffNoneMarked(m: seq<Entry>)
    ensures (forall s :: SortOf(m, s) ==> AllChainsEnd(m, s)) <==> NoneMarked(m)
  {
    hide SortOf, Hashed, LeadersUnmarked, EndsWell;
    if NoneMarked(m) {
      forall s | SortOf(m, s) ensures AllChainsEnd(m, s) {
        UnmarkedLeads(m, s);
        ChainsEndIffLeadersUnmarked(m, s);
      }
    } else {
      var b :| 0 <= b < |m| && Hashed(m, b) && m[b].isDuplicate;
      var s := MarkedMayLead(m, b);
      ChainsEndIffLeadersUnmarked(m, s);
    }
  }

  /** Two different hashed non-zero blocks with one hash. */
  ghost predicate Pair(m: seq<Entry>, a: nat, b: nat) {
    Hashed(m, a) && Hashed(m, b) && a != b && m[a].hash == m[b].hash
  }

  ghost predicate NoPair(m: seq<Entry>) {
    forall a, b :: !Pair(m, a, b)
  }

  lemma {:induction false} FirstOfPairIsUnlike(m: seq<Entry>, s: seq<HashEntry>, a: nat, b: nat) returns (i: nat)
    requires SortOf(m, s) && Pair(m, a, b)
    ensures i < |s| && Repeats(s, i)
  {
    hide Sorted, NotAfter, Collected, Hashed;
    var j := PositionOf(m, s, a);
    var k := PositionOf(m, s, b);
    RunsAreClasses(s, j, k);
    i := if Repeats(s, j) then j else k;
  }

  /** A first search leaves no hashed non-zero block marked, if and only if no two of them share a hash. */
  lemma {:induction false} NoneMarkedIffNoPair(m: seq<Entry>, s: seq<HashEntry>)
    requires SortOf(m, s) && Fresh(m)
    ensures NoneMarked(FindDuplicates(m, s)) <==> NoPair(m)
  {
    var r := FindDuplicates(m, s);
    if a, b :| Pair(m, a, b) {
      var i := FirstOfPairIsUnlike(m, s, a, b);
      RepeatIsMarked(m, s, i);
    }
    if b: nat :| b < |r| && Hashed(r, b) && r[b].isDuplicate {
      var a := MarkedHasPair(m, s, b);
    }
  }

  lemma {:induction false} RepeatIsMarked(m: seq<Entry>, s: seq<HashEntry>, i: nat)
    requires SortOf(m, s) && i < |s| && Repeats(s, i)
    ensures !NoneMarked(FindDuplicates(m, s))
  {
    hide Linked, LinkAt, Sorted, NotAfter, Collected;
    SortedBlocks(m, s);
    LinkedAt(m, s, |s|, i);
    LinkedElsewhere(m, s, |s|, s[i].block);
    assert Hashed(FindDuplicates(m, s), s[i].block);
  }

  lemma {:induction false} MarkedHasPair(m: seq<Entry>, s: seq<HashEntry>, b: nat) returns (a: nat)
    requires SortOf(m, s) && Fresh(m) && b < |m| && FindDuplicates(m, s)[b].isDuplicate
    ensures Pair(m, a, b)
  {
    hide Linked, LinkAt, Sorted, NotAfter, Collected;
    var i := DuplicateAt(m, s, b);
    SortedBlocks(m, s);
    a := s[i - 1].block;
  }

  /** A second search over the same map is safe, whatever its sort does, if and only if no two hashed non-zero
      blocks share a hash, that is, if the first search found nothing. */
  lemma {:induction false} SecondSearchSafeIffNoDuplicates(m: seq<Entry>, s: seq<HashEntry>)
    requires SortOf(m, s) && Fresh(m)
    ensures var r := FindDuplicates(m, s);
      && ((forall t :: SortOf(r, t) ==> LeadersUnmarked(r, t)) <==> NoPair(m))
      && ((forall t :: SortOf(r, t) ==> AllChainsEnd(r, t)) <==> NoPair(m))
  {
    hide SortOf, Fresh, LeadersUnmarked, AllChainsEnd, FindDuplicates, NoPair, Hashed;
    var r := FindDuplicates(m, s);
    NoneMarkedIffNoPair(m, s);
    AlwaysEndsIffNoneMarked(r);
    if NoneMarked(r) {
      forall t | SortOf(r, t) ensures LeadersUnmarked(r, t) {
        UnmarkedLeads(r, t);
      }
    } else {
      var b :| 0 <= b < |r| && Hashed(r, b) && r[b].isDuplicate;
      var t := MarkedMayLead(r, b);
    }
  }

  /** Two blocks that point to each other. */
  ghost predicate Cycle(r: seq<Entry>, a: nat, b: nat) {
    && a < |r| && b < |r| && a != b
    && r[a].isDuplicate && r[a].exemplarBlock == b && r[b].isDuplicate && r[b].exemplarBlock == a
  }

  ghost predicate CycleAfterTwo(m: seq<Entry>, s: seq<HashEntry>, t: seq<HashEntry>) {
    && SortOf(m, s) && Fresh(m) && SortOf(FindDuplicates(m, s), t)
    && Cycle(FindDuplicates(FindDuplicates(m, s), t), 0, 1)
  }

  /** Two equal blocks, searched twice, with the tie broken one way and then the other: each ends up the
      duplicate of the other. */
  lemma {:induction false} SecondSearchMakesCycle()
    ensures exists m, s, t :: CycleAfterTwo(m, s, t)
  {
    hide NotAfter, Collected, SortOf, Linked;
    var e := Entry(false, false, false, false, 0, 0, "a", true);
    var first, second := HashEntry(0, "a"), HashEntry(1, "a");
    var m, r := [e, e], [e.(isExemplar := true), e.(isDuplicate := true, exemplarBlock := 0)];
    EqualPairSorts(m, "a");
    TwoLinked(m, [first, second]);
    assert FindDuplicates(m, [first, second]) == r;
    EqualPairSorts(r, "a");
    TwoLinked(r, [second, first]);
    assert CycleAfterTwo(m, [first, second], [second, first]);
  }

  lemma {:induction false} TwoLinked(m: seq<Entry>, s: seq<HashEntry>)
    requires |m| == |s| == 2 && s[0].block < 2 && s[1].block < 2
    ensures FindDuplicates(m, s) == LinkAt(m, s, 1)
  {
    assert Linked(m, s, 1) == m;
  }

  lemma {:induction false} CollectsTwo(m: seq<Entry>, h: string)
    requires |m| == 2 && Hashed(m, 0) && Hashed(m, 1) && m[0].hash == m[1].hash == h
    ensures Collected(m, 2) == [HashEntry(0, h), HashEntry(1, h)]
  {
    assert Collected(m, 0) == [];
    assert Collected(m, 1) == [] + [HashEntry(0, h)];
  }

  /** Both orders of two equal blocks are sorted. */
  lemma {:induction false} EqualPairSorts(m: seq<Entry>, h: string)
    requires |m| == 2 && Hashed(m, 0) && Hashed(m, 1) && m[0].hash == m[1].hash == h
    ensures SortOf(m, [HashEntry(0, h), HashEntry(1, h)]) && SortOf(m, [HashEntry(1, h), HashEntry(0, h)])
  {
    hide NotAfter, Collected, Hashed;
    CollectsTwo(m, h);
    NotAfterTotal(h, h);
    var s, t := [HashEntry(0, h), HashEntry(1, h)], [HashEntry(1, h), HashEntry(0, h)];
    assert multiset(t) == multiset(s);
  }

  // ---------- the second search, sort by sort ----------

  /** A leader of the first search is the block that no link of that search leaves. */
  lemma {:induction false} LeaderOf(m: seq<Entry>, s: seq<HashEntry>, b: nat) returns (i: nat, leader: nat)
    requires SortOf(m, s) && Fresh(m) && Hashed(m, b)
    ensures i < |s| && s[i].block == b
    ensures leader < |s| && !Repeats(s, leader) && s[leader].hash == m[b].hash
    ensures FindDuplicates(m, s)[b].isDuplicate <==> i != leader
  {
    SortedBlocks(m, s);
    i :| 0 <= i < |s| && s[i].block == b;
    leader := RunStart(s, i);
    LinkedAt(m, s, |s|, i);
  }

  /** Both sorts put the same block first in each group. */
  ghost predicate SameLeaders(s: seq<HashEntry>, t: seq<HashEntry>) {
    forall i, j :: 0 <= i < |s| && 0 <= j < |t| && !Repeats(s, i) && !Repeats(t, j) && s[i].hash == t[j].hash
      ==> s[i].block == t[j].block
  }

  /** A second search over the same map: its chains end well if and only if its sort puts the same
      block first in each group as the first search did. */
  lemma {:induction false} SecondSearchIffSameLeaders(m: seq<Entry>, s: seq<HashEntry>, t: seq<HashEntry>)
    requires SortOf(m, s) && Fresh(m) && SortOf(FindDuplicates(m, s), t)
    ensures LeadersUnmarked(FindDuplicates(m, s), t) <==> SameLeaders(s, t)
  {
    var r := FindDuplicates(m, s);
    SortedBlocks(m, s);
    SortedBlocks(r, t);
    forall j | 0 <= j < |t| && !Repeats(t, j)
      ensures r[t[j].block].isDuplicate <==>
        exists i :: 0 <= i < |s| && !Repeats(s, i) && s[i].hash == t[j].hash && s[i].block != t[j].block
    {
      var b := t[j].block;
      LinkedElsewhere(m, s, |s|, b);
      var at, leader := LeaderOf(m, s, b);
      forall i | 0 <= i < |s| && !Repeats(s, i) && s[i].hash == t[j].hash
        ensures i == leader
      {
        RunsAreClasses(s, i, leader);
      }
    }
  }

  lemma {:induction false} DuplicateAt(m: seq<Entry>, s: seq<HashEntry>, d: nat) returns (i: nat)
    requires SortOf(m, s) && Fresh(m) && d < |m| && FindDuplicates(m, s)[d].isDuplicate
    ensures 0 < i < |s| && Repeats(s, i) && s[i].block == d && FindDuplicates(m, s)[d].exemplarBlock == s[i - 1].block
  {
    SortedBlocks(m, s);
    LinkedElsewhere(m, s, |s|, d);
    i :| 0 <= i < |s| && s[i].block == d;
    LinkedAt(m, s, |s|, i);
  }

  /** The exemplar marks are exactly on the blocks that a duplicate points to. */
  lemma {:induction false} ExemplarIffPointedTo(m: seq<Entry>, s: seq<HashEntry>, b: nat)
    requires SortOf(m, s) && Fresh(m) && b < |m|
    ensures var r := FindDuplicates(m, s);
      r[b].isExemplar <==> exists d :: 0 <= d < |r| && r[d].isDuplicate && r[d].exemplarBlock == b
  {
    hide Linked, LinkAt, Collected, Sorted, NotAfter, Hashed;
    var r := FindDuplicates(m, s);
    if d: nat :| d < |r| && r[d].isDuplicate && r[d].exemplarBlock == b {
      var i := DuplicateAt(m, s, d);
      LinkedAt(m, s, |s|, i - 1);
    }
    LinkedElsewhere(m, s, |s|, b);
    if r[b].isExemplar {
      var i :| 0 <= i < |s| && s[i].block == b;
      LinkedAt(m, s, |s|, i);
      LinkedAt(m, s, |s|, i + 1);
      assert r[s[i + 1].block].isDuplicate;
    }
  }

  /** Two hashed non-zero blocks have the same root exactly when their hashes are equal. */
  lemma {:induction false} SameRootIffSameHash(m: seq<Entry>, s: seq<HashEntry>, a: nat, b: nat)
    requires SortOf(m, s) && LeadersUnmarked(m, s) && Hashed(m, a) && Hashed(m, b)
    ensures var r := FindDuplicates(m, s);
      Root(r, a) == Root(r, b) <==> m[a].hash == m[b].hash
  {
    SortedBlocks(m, s);
    NoMoreEntriesThanBlocks(m, s);
    var i :| 0 <= i < |s| && s[i].block == a;
    var j :| 0 <= j < |s| && s[j].block == b;
    ChainEndsAtRunStart(m, s, i, |m|);
    ChainEndsAtRunStart(m, s, j, |m|);
    RunsAreClasses(s, i, j);
  }

  predicate IsDuplicate(e: Entry) { e.isDuplicate }

  ghost function HashesOf(s: seq<HashEntry>, k: nat): set<string>
    requires k <= |s|
  {
    set i | 0 <= i < k :: s[i].hash
  }

  /** One turn of the loop marks one block more exactly when it finds a repetition. */
  lemma {:induction false} LinkCounts(m: seq<Entry>, s: seq<HashEntry>, k: nat)
    requires SortOf(m, s) && Fresh(m) && 0 < k < |s|
    ensures Count(Linked(m, s, k + 1), IsDuplicate)
        == Count(Linked(m, s, k), IsDuplicate) + (if Repeats(s, k) then 1 else 0)
  {
    if Repeats(s, k) {
      SortedBlocks(m, s);
      LinkedAt(m, s, k, k);
      var l := Linked(m, s, k);
      var e, d := s[k - 1].block, s[k].block;
      var l1 := l[e := l[e].(isExemplar := true)];
      CountUpdate(l, e, l1[e], IsDuplicate);
      CountUpdate(l1, d, l1[d].(isDuplicate := true, exemplarBlock := e), IsDuplicate);
    }
  }

  /** A hash is new at position `k` exactly when it does not repeat the one before. */
  lemma {:induction false} HashesGrow(s: seq<HashEntry>, k: nat)
    requires Sorted(s) && k < |s|
    ensures |HashesOf(s, k + 1)| == |HashesOf(s, k)| + (if Repeats(s, k) then 0 else 1)
  {
    var last := s[k].hash;
    assert HashesOf(s, k + 1) == HashesOf(s, k) + {last};
    if Repeats(s, k) {
      assert s[k - 1].hash in HashesOf(s, k);
      assert HashesOf(s, k + 1) == HashesOf(s, k);
    } else if last in HashesOf(s, k) {
      var i :| 0 <= i < k && s[i].hash == last;
      Between(s, i, k - 1, k);
    }
  }

  lemma {:induction false} DuplicatesSoFar(m: seq<Entry>, s: seq<HashEntry>, k: nat)
    requires SortOf(m, s) && Fresh(m) && k <= |s|
    ensures Count(Linked(m, s, k), IsDuplicate) + |HashesOf(s, k)| == k
  {
    if k == 0 {
      CountPositive(m, IsDuplicate);
      assert HashesOf(s, 0) == {};
    } else {
      DuplicatesSoFar(m, s, k - 1);
      HashesGrow(s, k - 1);
      if k > 1 {
        LinkCounts(m, s, k - 1);
      }
    }
  }

  /** `blockmap_duplicate_count` afterwards: hashed non-zero blocks minus distinct hashes. */
  lemma {:induction false} DuplicateCount(m: seq<Entry>, s: seq<HashEntry>)
    requires SortOf(m, s) && Fresh(m)
    ensures Count(FindDuplicates(m, s), IsDuplicate)
         == |set b | 0 <= b < |m| && Hashed(m, b)| - |set b | 0 <= b < |m| && Hashed(m, b) :: m[b].hash|
  {
    DuplicatesSoFar(m, s, |s|);
    SortedBlocks(m, s);
    CollectedLength(m, |m|);
    assert |multiset(s)| == |multiset(Collected(m, |m|))|;
    assert HashesOf(s, |s|) == set b | 0 <= b < |m| && Hashed(m, b) :: m[b].hash;
  }

  /** Three different blocks with one hash. */
  ghost predicate Triple(m: seq<Entry>, a: nat, b: nat, c: nat) {
    && Hashed(m, a) && Hashed(m, b) && Hashed(m, c) && a != b && b != c && a != c
    && m[a].hash == m[b].hash == m[c].hash
  }

  ghost predicate PointsToLeader(r: seq<Entry>, b: nat)
    requires b < |r|
  {
    r[b].isDuplicate ==> r[b].exemplarBlock < |r| && !r[r[b].exemplarBlock].isDuplicate
  }

  /** The third position of a run points to the second. */
  lemma {:induction false} ThirdPointsToSecond(m: seq<Entry>, s: seq<HashEntry>, i: nat)
    requires SortOf(m, s) && Fresh(m) && i < |s|
    ensures PointsToLeader(FindDuplicates(m, s), s[i].block) <==> !(Repeats(s, i) && Repeats(s, i - 1))
  {
    LinkedAt(m, s, |s|, i);
    if Repeats(s, i) {
      LinkedAt(m, s, |s|, i - 1);
    }
  }

  lemma {:induction false} ThirdOfRun(s: seq<HashEntry>, i: nat, j: nat, k: nat) returns (last: nat)
    requires Sorted(s) && i < |s| && j < |s| && k < |s| && i != j && j != k && i != k
    requires s[i].hash == s[j].hash == s[k].hash
    ensures 2 <= last < |s| && Repeats(s, last) && Repeats(s, last - 1)
  {
    last := if i >= j && i >= k then i else if j >= k then j else k;
    var first := if i <= j && i <= k then i else if j <= k then j else k;
    Between(s, first, last - 1, last);
    Between(s, first, last - 2, last);
  }

  lemma {:induction false} TripleHasThird(m: seq<Entry>, s: seq<HashEntry>, x: nat, y: nat, z: nat) returns (last: nat)
    requires SortOf(m, s) && Triple(m, x, y, z)
    ensures 2 <= last < |s| && Repeats(s, last) && Repeats(s, last - 1)
  {
    SortedBlocks(m, s);
    var i :| 0 <= i < |s| && s[i].block == x;
    var j :| 0 <= j < |s| && s[j].block == y;
    var k :| 0 <= k < |s| && s[k].block == z;
    last := ThirdOfRun(s, i, j, k);
  }

  /** The header calls `exemplar_block` the exemplar of the duplicate. It is the group's leader, a
      block that is no duplicate itself, for every duplicate, if and only if no three hashed
      non-zero blocks share a hash: a third block points to the second. */
  lemma {:induction false} ExemplarIsLeaderIffNoTriple(m: seq<Entry>, s: seq<HashEntry>)
    requires SortOf(m, s) && Fresh(m)
    ensures var r := FindDuplicates(m, s);
      (forall b :: 0 <= b < |r| ==> PointsToLeader(r, b)) <==> !exists x, y, z :: Triple(m, x, y, z)
  {
    hide Linked, LinkAt, Sorted, NotAfter, Collected, Hashed;
    var r := FindDuplicates(m, s);
    SortedBlocks(m, s);
    if b: nat :| b < |r| && !PointsToLeader(r, b) {
      LinkedElsewhere(m, s, |s|, b);
      var i :| 0 <= i < |s| && s[i].block == b;
      ThirdPointsToSecond(m, s, i);
      assert Triple(m, s[i].block, s[i - 1].block, s[i - 2].block);
    }
    if x, y, z :| Triple(m, x, y, z) {
      var last := TripleHasThird(m, s, x, y, z);
      ThirdPointsToSecond(m, s, last);
    }
  }

  /** The first block leads, the second points to it, and the third to the second, a duplicate itself. */
  ghost predicate ChainOfThree(m: seq<Entry>, s: seq<HashEntry>) {
    && SortOf(m, s) && Fresh(m) && |m| == 3
    && var r := FindDuplicates(m, s);
      && !r[0].isDuplicate && r[1].isDuplicate && r[1].exemplarBlock == 0
      && r[2].isDuplicate && r[2].exemplarBlock == 1 && !PointsToLeader(r, 2)
  }

  /** Three equal blocks, in block order. */
  lemma {:induction false} ThirdOfThreeMissesLeader()
    ensures exists m, s :: ChainOfThree(m, s)
  {
    hide NotAfter, Collected, SortOf, Linked;
    var e := Entry(false, false, false, false, 0, 0, "a", true);
    var m, s := [e, e, e], [HashEntry(0, "a"), HashEntry(1, "a"), HashEntry(2, "a")];
    EqualTripleSorts(m, "a");
    ThreeLinked(m, s);
    var r := [e.(isExemplar := true), e.(isDuplicate := true, exemplarBlock := 0), e];
    assert LinkAt(m, s, 1) == r;
    assert ChainOfThree(m, s);
  }

  lemma {:induction false} ThreeLinked(m: seq<Entry>, s: seq<HashEntry>)
    requires |m| == |s| == 3 && s[0].block < 3 && s[1].block < 3 && s[2].block < 3
    ensures FindDuplicates(m, s) == LinkAt(LinkAt(m, s, 1), s, 2)
  {
    assert Linked(m, s, 1) == m;
    assert Linked(m, s, 2) == LinkAt(m, s, 1);
  }

  lemma {:induction false} EqualTripleSorts(m: seq<Entry>, h: string)
    requires |m| == 3 && forall b :: 0 <= b < 3 ==> Hashed(m, b) && m[b].hash == h
    ensures SortOf(m, [HashEntry(0, h), HashEntry(1, h), HashEntry(2, h)])
  {
    hide NotAfter, Collected, Hashed;
    CollectsThree(m, h);
    NotAfterTotal(h, h);
  }

  lemma {:induction false} CollectsThree(m: seq<Entry>, h: string)
    requires |m| == 3 && forall b :: 0 <= b < 3 ==> Hashed(m, b) && m[b].hash == h
    ensures Collected(m, 3) == [HashEntry(0, h), HashEntry(1, h), HashEntry(2, h)]
  {
    hide Collected, Hashed;
    NoneCollected(m);
    CollectedStep(m, 1);
    CollectedStep(m, 2);
    CollectedStep(m, 3);
  }
}
