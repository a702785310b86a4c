/**
 The recursive folder eraser on a directory tree: what it removes, what it leaves, and what its
 counters say, for any outcome of the underlying file-system calls.
 */
module FolderEraser {
  import opened Bytes
  import opened Counting

  const MAX_SEEN: nat := 1024

  /** A directory entry's target, with the outcomes of the calls on it: `erases` of overwriting a file and
      `unlinks` of removing it, `visits` of reading a directory's status once more on entering it, `opens` of
      opening it and `removes` of removing it when it is empty. */
  datatype Node =
    | File(erases: bool, unlinks: bool, size: nat)
    | Symlink
    | Special
    | Dir(dev: nat, ino: nat, visits: bool, opens: bool, removes: bool, entries: seq<Entry>)

  /** `stats` is the outcome of reading the entry's status in the loop over its directory. */
  datatype Entry = Entry(name: string, stats: bool, node: Node)

  /** The result of erasing something: it is gone, or this is left of it. */
  datatype Left = Gone | Stays(node: Node)

  datatype Options = Options(passes: nat, removeFile: bool, removeDirs: bool, followMount: bool, maxDepth: nat)

  datatype Code = Success | Failure | CycleDetected | DangerousPath

  datatype Inode = Inode(dev: nat, ino: nat)

  /** The result counters and the directories seen so far. `bytes` is the 64-bit total of bytes written. */
  datatype Walk = Walk(
    processed: nat, succeeded: nat, failed: nat, dirsRemoved: nat, symlinks: nat, bytes: nat, seen: seq<Inode>)

  const START := Walk(0, 0, 0, 0, 0, 0, [])

  // ---------- the traversal as a function ----------

  function See(w: Walk, i: Inode): Walk {
    if |w.seen| < MAX_SEEN then w.(seen := w.seen + [i]) else w
  }

  /** The entry with what is left of its node, or nothing. */
  function Keep(e: Entry, left: Left): seq<Entry> {
    match left case Gone => [] case Stays(n) => [e.(node := n)]
  }

  /** The byte counter after a file of this size was overwritten in all passes. */
  function Written(bytes: nat, passes: nat, size: nat): nat {
    (bytes + passes * size) % TWO64
  }

  /** A file counts as succeeded once it is overwritten, whether it can be unlinked or not. */
  function EraseFile(f: Node, o: Options, w: Walk): (Left, Walk)
    requires f.File?
  {
    var w1 := w.(processed := w.processed + 1);
    if f.erases then
      (if o.removeFile && f.unlinks then Gone else Stays(f),
       w1.(succeeded := w1.succeeded + 1, bytes := Written(w1.bytes, o.passes, f.size)))
    else (Stays(f), w1.(failed := w1.failed + 1))
  }

  function EraseDir(d: Node, o: Options, depth: nat, initialDev: nat, w: Walk): (Code, Left, Walk)
    requires d.Dir?
    decreases d, 1
  {
    if depth > o.maxDepth || !d.visits then (Failure, Stays(d), w)
    else if !o.followMount && d.dev != initialDev then (Success, Stays(d), w)
    else if Inode(d.dev, d.ino) in w.seen then (CycleDetected, Stays(d), w)
    else
      var w1 := See(w, Inode(d.dev, d.ino));
      if !d.opens then (Failure, Stays(d), w1)
      else
        var (rest, w2) := EraseEntries(d.entries, o, depth, initialDev, w1);
        if o.removeDirs && rest == [] && d.removes then (Success, Gone, w2.(dirsRemoved := w2.dirsRemoved + 1))
        else (Success, Stays(d.(entries := rest)), w2)
  }

  function EraseNode(n: Node, o: Options, depth: nat, initialDev: nat, w: Walk): (Left, Walk)
    decreases n, 2
  {
    match n
    case File(_, _, _) => EraseFile(n, o, w)
    case Symlink => (Stays(n), w.(symlinks := w.symlinks + 1))
    case Special => (Stays(n), w)
    case Dir(_, _, _, _, _, _) => var (_, left, w1) := EraseDir(n, o, depth + 1, initialDev, w); (left, w1)
  }

  function EraseEntry(e: Entry, o: Options, depth: nat, initialDev: nat, w: Walk): (Left, Walk)
    decreases e, 3
  {
    if e.stats then EraseNode(e.node, o, depth, initialDev, w) else (Stays(e.node), w)
  }

  function EraseEntries(es: seq<Entry>, o: Options, depth: nat, initialDev: nat, w: Walk): (seq<Entry>, Walk)
    decreases es, 0
  {
    if es == [] then ([], w)
    else
      var (left, w1) := EraseEntry(es[0], o, depth, initialDev, w);
      var (rest, w2) := EraseEntries(es[1..], o, depth, initialDev, w1);
      (Keep(es[0], left) + rest, w2)
  }

  predicate IsDangerous(path: string) {
    "/dev/" <= path || "/proc/" <= path || "/sys/" <= path
  }

  /** `folder_erase` of the folder that `root` names: a dangerous path, or one that is no directory, is
      refused. */
  function FolderErase(root: Entry, o: Options): (Code, Left, Walk) {
    if IsDangerous(root.name) then (DangerousPath, Stays(root.node), START)
    else if !root.stats || !root.node.Dir? then (Failure, Stays(root.node), START)
    else EraseDir(root.node, o, 0, root.node.dev, START)
  }

  // ---------- the traversal in place ----------

  class Eraser {
    var walk: Walk

    constructor ()
      ensures walk == START
    {
      walk := START;
    }

    /** A whole run. The counters start from zero. */
    method Erase(root: Entry, o: Options) returns (code: Code, left: Left)
      modifies this
      ensures (code, left, walk) == FolderErase(root, o)
    {
      hide EraseDir;
      walk := START;
      left := Stays(root.node);
      if IsDangerous(root.name) {
        return DangerousPath, left;
      }
      if !root.stats || !root.node.Dir? {
        return Failure, left;
      }
      code, left := Recurse(root.node, o, 0, root.node.dev);
    }

    /** The directory `d` at the given depth: the depth, mount and cycle tests, the entry loop, and the
        removal of the directory itself. */
    method Recurse(d: Node, o: Options, depth: nat, initialDev: nat) returns (code: Code, left: Left)
      requires d.Dir?
      modifies this
      ensures (code, left, walk) == EraseDir(d, o, depth, initialDev, old(walk))
      decreases d, 1
    {
      if depth > o.maxDepth {
        return Failure, Stays(d);
      }
      if !d.visits {
        return Failure, Stays(d);
      }
      if !o.followMount && d.dev != initialDev {
        return Success, Stays(d);
      }
      var found := Seen(Inode(d.dev, d.ino));
      if found {
        return CycleDetected, Stays(d);
      }
      walk := See(walk, Inode(d.dev, d.ino));
      if !d.opens {
        return Failure, Stays(d);
      }
      var rest := EraseAll(d.entries, o, depth, initialDev);
      if o.removeDirs && rest == [] && d.removes {
        walk := walk.(dirsRemoved := walk.dirsRemoved + 1);
        return Success, Gone;
      }
      return Success, Stays(d.(entries := rest));
    }

    /** The scan of the directories seen so far. */
    method Seen(i: Inode) returns (found: bool)
      ensures found <==> i in walk.seen
    {
      var k := 0;
      while k < |walk.seen|
        invariant k <= |walk.seen| && i !in walk.seen[..k]
      {
        if walk.seen[k] == i {
          return true;
        }
        k := k + 1;
      }
      return false;
    }

    /** The loop over the entries of one directory. */
    method EraseAll(es: seq<Entry>, o: Options, depth: nat, initialDev: nat) returns (rest: seq<Entry>)
      modifies this
      ensures (rest, walk) == EraseEntries(es, o, depth, initialDev, old(walk))
      decreases es, 0
    {
      hide EraseEntry;
      ghost var (all, end) := EraseEntries(es, o, depth, initialDev, walk);
      rest := [];
      var i := 0;
      assert es[0..] == es && [] + all == all;
      while i < |es|
        invariant i <= |es|
        invariant Remaining(es[i..], rest, o, depth, initialDev, walk) == (all, end)
      {
        RemainingStep(es, i, rest, o, depth, initialDev, walk);
        var left := EraseOne(es[i], o, depth, initialDev);
        rest := rest + Keep(es[i], left);
        i := i + 1;
      }
      assert es[i..] == [] && rest + [] == rest;
    }

    /** One entry: a link is counted, a file erased, a directory entered, anything else skipped. */
    method EraseOne(e: Entry, o: Options, depth: nat, initialDev: nat) returns (left: Left)
      modifies this
      ensures (left, walk) == EraseEntry(e, o, depth, initialDev, old(walk))
      decreases e, 2
    {
      hide EraseDir;
      left := Stays(e.node);
      if e.stats {
        match e.node {
          case Symlink =>
            walk := walk.(symlinks := walk.symlinks + 1);
          case File(erases, unlinks, size) =>
            walk := walk.(processed := walk.processed + 1);
            if erases {
              walk := walk.(succeeded := walk.succeeded + 1, bytes := Written(walk.bytes, o.passes, size));
              if o.removeFile && unlinks {
                left := Gone;
              }
            } else {
              walk := walk.(failed := walk.failed + 1);
            }
          case Dir(_, _, _, _, _, _) =>
            var _, l := Recurse(e.node, o, depth + 1, initialDev);
            left := l;
          case Special =>
        }
      }
    }
  }

  /** What the entry loop will have collected in the end, when it holds `rest` before the entries `es`. */
  ghost function Remaining(es: seq<Entry>, rest: seq<Entry>, o: Options, depth: nat, initialDev: nat,
        w: Walk): (seq<Entry>, Walk) {
    var (r, w') := EraseEntries(es, o, depth, initialDev, w);
    (rest + r, w')
  }

  lemma {:induction false} RemainingStep(es: seq<Entry>, i: nat, rest: seq<Entry>, o: Options, depth: nat,
        initialDev: nat, w: Walk)
    requires i < |es|
    ensures var (left, w1) := EraseEntry(es[i], o, depth, initialDev, w);
      Remaining(es[i..], rest, o, depth, initialDev, w)
      == Remaining(es[i + 1..], rest + Keep(es[i], left), o, depth, initialDev, w1)
  {
    hide EraseEntry, Keep;
    var (left, w1) := EraseEntry(es[i], o, depth, initialDev, w);
    assert es[i..][1..] == es[i + 1..];
    var (r, w2) := EraseEntries(es[i + 1..], o, depth, initialDev, w1);
    assert (rest + Keep(es[i], left)) + r == rest + (Keep(es[i], left) + r);
  }

  // ---------- what is left ----------

  /** A path and what kind of leaf is there. */
  datatype Leaf = Leaf(path: seq<string>, node: Node)

  /** The symlinks and special files below a node, with their paths, in order. */
  ghost function Keepers(n: Node, path: seq<string>): seq<Leaf>
    decreases n, 1
  {
    match n
    case File(_, _, _) => []
    case Symlink => [Leaf(path, n)]
    case Special => [Leaf(path, n)]
    case Dir(_, _, _, _, _, entries) => EntryKeepers(entries, path)
  }

  ghost function EntryKeepers(es: seq<Entry>, path: seq<string>): seq<Leaf>
    decreases es, 0
  {
    if es == [] then [] else Keepers(es[0].node, path + [es[0].name]) + EntryKeepers(es[1..], path)
  }

  ghost function LeftKeepers(left: Left, path: seq<string>): seq<Leaf> {
    match left case Gone => [] case Stays(n) => Keepers(n, path)
  }

  /** Regular files and directories below a node, the node included. */
  ghost function Files(n: Node): seq<Node>
    decreases n, 1
  {
    match n case File(_, _, _) => [n] case Dir(_, _, _, _, _, es) => EntryFiles(es) case _ => []
  }

  ghost function EntryFiles(es: seq<Entry>): seq<Node>
    decreases es, 0
  {
    if es == [] then [] else Files(es[0].node) + EntryFiles(es[1..])
  }

  ghost function Dirs(n: Node): nat
    decreases n, 1
  {
    match n case Dir(_, _, _, _, _, es) => 1 + EntryDirs(es) case _ => 0
  }

  ghost function EntryDirs(es: seq<Entry>): nat
    decreases es, 0
  {
    if es == [] then 0 else Dirs(es[0].node) + EntryDirs(es[1..])
  }

  ghost function LeftFiles(left: Left): seq<Node> { match left case Gone => [] case Stays(n) => Files(n) }
  ghost function LeftDirs(left: Left): nat { match left case Gone => 0 case Stays(n) => Dirs(n) }

  lemma {:induction false} KeepCounts(e: Entry, left: Left, rest: seq<Entry>, path: seq<string>)
    ensures EntryKeepers(Keep(e, left) + rest, path) == LeftKeepers(left, path + [e.name]) + EntryKeepers(rest, path)
    ensures EntryFiles(Keep(e, left) + rest) == LeftFiles(left) + EntryFiles(rest)
    ensures EntryDirs(Keep(e, left) + rest) == LeftDirs(left) + EntryDirs(rest)
  {
    if left.Gone? {
      assert Keep(e, left) + rest == rest;
      assert LeftKeepers(left, path + [e.name]) + EntryKeepers(rest, path) == EntryKeepers(rest, path);
      assert LeftFiles(left) + EntryFiles(rest) == EntryFiles(rest);
    } else {
      assert (Keep(e, left) + rest)[1..] == rest;
    }
  }

  // ---------- what the counters say ----------

  /** The walk goes into the directory. */
  ghost predicate Enters(d: Node, o: Options, depth: nat, dev: nat, w: Walk)
    requires d.Dir?
  {
    && depth <= o.maxDepth && d.visits && (o.followMount || d.dev == dev)
    && Inode(d.dev, d.ino) !in w.seen && d.opens
  }

  /** The files, links and special files that a walk reaches, in its order. */
  ghost function Reached(n: Node, o: Options, depth: nat, dev: nat, w: Walk): seq<Node>
    decreases n, 1
  {
    match n
    case Dir(d, i, _, _, _, es) =>
      if Enters(n, o, depth, dev, w) then EntriesReached(es, o, depth, dev, See(w, Inode(d, i))) else []
    case _ => [n]
  }

  ghost function EntryReached(e: Entry, o: Options, depth: nat, dev: nat, w: Walk): seq<Node>
    decreases e, 3
  {
    if e.stats then Reached(e.node, o, depth + 1, dev, w) else []
  }

  ghost function EntriesReached(es: seq<Entry>, o: Options, depth: nat, dev: nat, w: Walk): seq<Node>
    decreases es, 0
  {
    if es == [] then []
    else
      EntryReached(es[0], o, depth, dev, w)
      + EntriesReached(es[1..], o, depth, dev, EraseEntry(es[0], o, depth, dev, w).1)
  }

  ghost function FolderReached(root: Entry, o: Options): seq<Node> {
    if IsDangerous(root.name) || !root.stats || !root.node.Dir? then []
    else Reached(root.node, o, 0, root.node.dev, START)
  }

  predicate IsFile(n: Node) { n.File? }
  predicate IsLink(n: Node) { n.Symlink? }
  predicate Overwrites(n: Node) { n.File? && n.erases }
  predicate Fails(n: Node) { n.File? && !n.erases }
  predicate Goes(n: Node) { n.File? && n.erases && n.unlinks }

  /** The sizes of the files among these that are overwritten. */
  ghost function TotalSize(ns: seq<Node>): nat {
    if ns == [] then 0 else (if Overwrites(ns[0]) then ns[0].size else 0) + TotalSize(ns[1..])
  }

  lemma {:induction false} TotalSizeConcat(a: seq<Node>, b: seq<Node>)
    ensures TotalSize(a + b) == TotalSize(a) + TotalSize(b)
  {
    if a == [] {
      assert a + b == b;
    } else {
      assert (a + b)[1..] == a[1..] + b;
      TotalSizeConcat(a[1..], b);
    }
  }

  lemma {:induction false} WrittenTwice(bytes: nat, passes: nat, x: nat, y: nat)
    ensures Written(Written(bytes, passes, x), passes, y) == Written(bytes, passes, x + y)
  {
    var a, b := bytes + passes * x, passes * y;
    assert passes * (x + y) == passes * x + b;
    assert a == (a / TWO64) * TWO64 + a % TWO64;
    assert a + b == (a / TWO64) * TWO64 + (a % TWO64 + b);
  }

  /** What one walk accounts for: between `w` and `w'`, with these nodes reached, `files` files and `dirs`
      directories before and `files'`, `dirs'` after. */
  ghost predicate Accounted(w: Walk, w': Walk, o: Options, done: seq<Node>, files: nat, files': nat,
        dirs: nat, dirs': nat) {
    && w'.processed - w.processed == Count(done, IsFile)
    && w'.succeeded - w.succeeded == Count(done, Overwrites)
    && w'.failed - w.failed == Count(done, Fails)
    && w'.symlinks - w.symlinks == Count(done, IsLink)
    && (w.bytes < TWO64 ==> w'.bytes == Written(w.bytes, o.passes, TotalSize(done)))
    && files - files' == (if o.removeFile then Count(done, Goes) else 0)
    && dirs - dirs' == w'.dirsRemoved - w.dirsRemoved
  }

  lemma {:induction false} AccountedTwice(w: Walk, w1: Walk, w2: Walk, o: Options, done: seq<Node>, done1: seq<Node>,
        files: nat, files': nat, dirs: nat, dirs': nat, files1: nat, files1': nat, dirs1: nat, dirs1': nat)
    requires Accounted(w, w1, o, done, files, files', dirs, dirs')
    requires Accounted(w1, w2, o, done1, files1, files1', dirs1, dirs1')
    ensures Accounted(w, w2, o, done + done1, files + files1, files' + files1', dirs + dirs1, dirs' + dirs1')
  {
    TotalSizeConcat(done, done1);
    CountAppend(done, done1, IsFile);
    CountAppend(done, done1, Overwrites);
    CountAppend(done, done1, Fails);
    CountAppend(done, done1, IsLink);
    CountAppend(done, done1, Goes);
    WrittenTwice(w.bytes, o.passes, TotalSize(done), TotalSize(done1));
  }

  lemma {:induction false} NothingDone(w: Walk, o: Options, files: nat, dirs: nat)
    ensures Accounted(w, w, o, [], files, files, dirs, dirs)
  {
  }

  /** Whatever the tree, the options and the failures: the symlinks and special files stay where they are,
      and the counters account for what the walk reached and the directories that went. */
  lemma {:induction false} NodeAccounted(n: Node, o: Options, depth: nat, dev: nat, w: Walk, path: seq<string>)
    ensures var (left, w') := EraseNode(n, o, depth, dev, w);
      && LeftKeepers(left, path) == Keepers(n, path)
      && Accounted(w, w', o, Reached(n, o, depth + 1, dev, w), |Files(n)|, |LeftFiles(left)|,
                   Dirs(n), LeftDirs(left))
    decreases n, 2
  {
    hide EraseDir, Enters, EntriesReached;
    if n.Dir? {
      DirAccounted(n, o, depth + 1, dev, w, path);
    } else {
      OneReached(n);
    }
  }

  lemma {:induction false} OneReached(n: Node)
    ensures TotalSize([n]) == if Overwrites(n) then n.size else 0
    ensures forall p: Node -> bool :: Count([n], p) == if p(n) then 1 else 0
  {
    assert [n][1..] == [];
    assert TotalSize([]) == 0 && forall p: Node -> bool :: Count([], p) == 0;
  }

  lemma {:induction false} DirAccounted(d: Node, o: Options, depth: nat, dev: nat, w: Walk, path: seq<string>)
    requires d.Dir?
    ensures var (_, left, w') := EraseDir(d, o, depth, dev, w);
      && LeftKeepers(left, path) == Keepers(d, path)
      && Accounted(w, w', o, Reached(d, o, depth, dev, w), |Files(d)|, |LeftFiles(left)|, Dirs(d), LeftDirs(left))
    decreases d, 1
  {
    hide EraseDir, EraseEntries, Reached, EntriesReached, Accounted, See;
    DirCases(d, o, depth, dev, w);
    var w1 := See(w, Inode(d.dev, d.ino));
    if Enters(d, o, depth, dev, w) {
      EntriesAccounted(d.entries, o, depth, dev, w1, path);
      var (rest, w2) := EraseEntries(d.entries, o, depth, dev, w1);
      AroundEntries(w, w1, w2, o, EntriesReached(d.entries, o, depth, dev, w1), |EntryFiles(d.entries)|,
          |EntryFiles(rest)|, EntryDirs(d.entries), EntryDirs(rest)) by { SeeCounts(w, Inode(d.dev, d.ino)); }
      if rest == [] {
        assert EntryFiles(rest) == [] && EntryDirs(rest) == 0 && EntryKeepers(rest, path) == [];
      }
    } else {
      NothingSeen(w, Inode(d.dev, d.ino), o, |Files(d)|, Dirs(d));
    }
  }

  /** A directory that the walk enters, and one that it does not. */
  lemma {:induction false} DirCases(d: Node, o: Options, depth: nat, dev: nat, w: Walk)
    requires d.Dir?
    ensures var (_, left, w') := EraseDir(d, o, depth, dev, w);
      var w1 := See(w, Inode(d.dev, d.ino));
      var (rest, w2) := EraseEntries(d.entries, o, depth, dev, w1);
      if Enters(d, o, depth, dev, w) then
        && Reached(d, o, depth, dev, w) == EntriesReached(d.entries, o, depth, dev, w1)
        && (left, w') == (if o.removeDirs && rest == [] && d.removes
                          then (Gone, w2.(dirsRemoved := w2.dirsRemoved + 1))
                          else (Stays(d.(entries := rest)), w2))
      else Reached(d, o, depth, dev, w) == [] && left == Stays(d) && (w' == w || w' == w1)
  {
    hide EraseEntries, EntriesReached, See;
  }

  /** Noting a directory changes no counter. */
  lemma {:induction false} SeeCounts(w: Walk, i: Inode)
    ensures See(w, i) == w.(seen := See(w, i).seen)
  {
  }

  lemma {:induction false} NothingSeen(w: Walk, i: Inode, o: Options, files: nat, dirs: nat)
    ensures Accounted(w, w, o, [], files, files, dirs, dirs)
    ensures Accounted(w, See(w, i), o, [], files, files, dirs, dirs)
  {
    NothingDone(w, o, files, dirs);
  }

  /** The account of a directory from that of its entries: it stays, or is empty and goes. */
  lemma {:induction false} AroundEntries(w: Walk, w1: Walk, w2: Walk, o: Options, done: seq<Node>, files: nat,
        files': nat, dirs: nat, dirs': nat)
    requires w1 == w.(seen := w1.seen) && Accounted(w1, w2, o, done, files, files', dirs, dirs')
    ensures Accounted(w, w2, o, done, files, files', 1 + dirs, 1 + dirs')
    ensures Accounted(w, w2.(dirsRemoved := w2.dirsRemoved + 1), o, done, files, files', 1 + dirs, dirs')
  {
    hide Count, TotalSize, Written;
  }

  lemma {:induction false} EntriesAccounted(es: seq<Entry>, o: Options, depth: nat, dev: nat, w: Walk,
        path: seq<string>)
    ensures var (rest, w') := EraseEntries(es, o, depth, dev, w);
      && EntryKeepers(rest, path) == EntryKeepers(es, path)
      && Accounted(w, w', o, EntriesReached(es, o, depth, dev, w), |EntryFiles(es)|, |EntryFiles(rest)|,
                   EntryDirs(es), EntryDirs(rest))
    decreases es, 0
  {
    hide Accounted, EraseEntry, EntryReached, Keep, Keepers, Files, Dirs, LeftKeepers, LeftFiles, LeftDirs;
    if es == [] {
      NothingDone(w, o, 0, 0);
    } else {
      var e := es[0];
      var (left, w1) := EraseEntry(e, o, depth, dev, w);
      EntryAccounted(e, o, depth, dev, w, path);
      var (rest, w2) := EraseEntries(es[1..], o, depth, dev, w1);
      EntriesAccounted(es[1..], o, depth, dev, w1, path);
      KeepCounts(e, left, rest, path);
      AccountedTwice(w, w1, w2, o, EntryReached(e, o, depth, dev, w),
          EntriesReached(es[1..], o, depth, dev, w1), |Files(e.node)|, |LeftFiles(left)|, Dirs(e.node),
          LeftDirs(left), |EntryFiles(es[1..])|, |EntryFiles(rest)|, EntryDirs(es[1..]), EntryDirs(rest));
    }
  }

  lemma {:induction false} EntryAccounted(e: Entry, o: Options, depth: nat, dev: nat, w: Walk, path: seq<string>)
    ensures var (left, w') := EraseEntry(e, o, depth, dev, w);
      && LeftKeepers(left, path + [e.name]) == Keepers(e.node, path + [e.name])
      && Accounted(w, w', o, EntryReached(e, o, depth, dev, w), |Files(e.node)|, |LeftFiles(left)|,
                   Dirs(e.node), LeftDirs(left))
    decreases e, 3
  {
    hide Accounted, EraseNode, Reached, Keepers, Files, Dirs;
    if e.stats {
      NodeAccounted(e.node, o, depth, dev, w, path + [e.name]);
    } else {
      NothingDone(w, o, |Files(e.node)|, Dirs(e.node));
    }
  }

  /** The guarantee of `folder_erase` on every tree: no symlink or special file is lost; processed, succeeded,
      failed and skipped count the files reached, those overwritten, the others, and the links reached; the byte
      total is that of all passes over the files overwritten; of these those went that could be unlinked, and the
      directories counted went. */
  lemma {:induction false} EraseIsAccounted(root: Entry, o: Options)
    ensures var (_, left, w) := FolderErase(root, o);
      var reached := FolderReached(root, o);
      && LeftKeepers(left, []) == Keepers(root.node, [])
      && w.processed == Count(reached, IsFile) && w.succeeded == Count(reached, Overwrites)
      && w.failed == Count(reached, Fails) && w.symlinks == Count(reached, IsLink)
      && w.processed == w.succeeded + w.failed
      && w.bytes == (o.passes * TotalSize(reached)) % TWO64
      && |Files(root.node)| - |LeftFiles(left)| == (if o.removeFile then Count(reached, Goes) else 0)
      && Dirs(root.node) - LeftDirs(left) == w.dirsRemoved
  {
    hide EraseDir, Reached, Count;
    if !IsDangerous(root.name) && root.stats && root.node.Dir? {
      DirAccounted(root.node, o, 0, root.node.dev, START, []);
    } else {
      NothingDone(START, o, |Files(root.node)|, Dirs(root.node));
    }
    FilesSplit(FolderReached(root, o));
  }

  lemma {:induction false} FilesSplit(ns: seq<Node>)
    ensures Count(ns, IsFile) == Count(ns, Overwrites) + Count(ns, Fails)
    ensures Count(ns, Goes) <= Count(ns, Overwrites)
    ensures Count(ns, Goes) == Count(ns, Overwrites) <==>
      forall i :: 0 <= i < |ns| && Overwrites(ns[i]) ==> ns[i].unlinks
  {
    if ns != [] {
      FilesSplit(ns[1..]);
      if forall i :: 0 <= i < |ns| && Overwrites(ns[i]) ==> ns[i].unlinks {
        assert forall i :: 0 <= i < |ns[1..]| ==> ns[1..][i] == ns[i + 1];
      }
      if Count(ns, Goes) == Count(ns, Overwrites) {
        forall i | 0 <= i < |ns| && Overwrites(ns[i]) ensures ns[i].unlinks {
          assert i > 0 ==> ns[i] == ns[1..][i - 1];
        }
      }
    }
  }

  /** With removal asked for, the files counted as succeeded are those that went, if and only if none of the
      files overwritten fails to unlink: such a failure is not counted. */
  lemma {:induction false} SucceededAreGoneIff(root: Entry, o: Options)
    requires o.removeFile
    ensures var (_, left, w) := FolderErase(root, o);
      var reached := FolderReached(root, o);
      |Files(root.node)| - |LeftFiles(left)| == w.succeeded
      <==> forall i :: 0 <= i < |reached| && Overwrites(reached[i]) ==> reached[i].unlinks
  {
    hide FolderErase, FolderReached, Files, Keepers;
    EraseIsAccounted(root, o);
    FilesSplit(FolderReached(root, o));
  }

  ghost predicate Under(path: string, directory: string) {
    exists rest :: path == directory + rest
  }

  lemma {:induction false} UnderIff(path: string, directory: string)
    ensures Under(path, directory) <==> directory <= path
  {
    if directory <= path {
      assert path == directory + path[|directory|..];
    }
  }

  /** A folder under one of the three system directories keeps its whole tree, and nothing is counted; no other
      folder is refused for its path. */
  lemma {:induction false} SystemFoldersAreRefused(root: Entry, o: Options)
    ensures var system := Under(root.name, "/dev/") || Under(root.name, "/proc/") || Under(root.name, "/sys/");
      && (FolderErase(root, o).0 == DangerousPath <==> system)
      && (system ==> FolderErase(root, o) == (DangerousPath, Stays(root.node), Walk(0, 0, 0, 0, 0, 0, [])))
  {
    UnderIff(root.name, "/dev/");
    UnderIff(root.name, "/proc/");
    UnderIff(root.name, "/sys/");
    if FolderErase(root, o).0 == DangerousPath {
      NeverDangerousInside(root, o);
    }
  }

  lemma {:induction false} NeverDangerousInside(root: Entry, o: Options)
    requires FolderErase(root, o).0 == DangerousPath
    ensures IsDangerous(root.name)
  {
    if !IsDangerous(root.name) && root.stats && root.node.Dir? {
      DirCode(root.node, o, 0, root.node.dev, START);
    }
  }

  lemma {:induction false} DirCode(d: Node, o: Options, depth: nat, dev: nat, w: Walk)
    requires d.Dir?
    ensures EraseDir(d, o, depth, dev, w).0 != DangerousPath
  {
    hide EraseEntries;
  }

  /** A folder with one file that can be written and not removed: the file counts as a success and stays. */
  lemma {:induction false} UnlinkFailureIsSuccess(name: string, file: string, d: Node, size: nat, o: Options)
    requires !IsDangerous(name) && d.Dir? && d.visits && d.opens && o.removeFile
    requires d.entries == [Entry(file, true, File(true, false, size))]
    ensures var (code, left, w) := FolderErase(Entry(name, true, d), o);
      code == Success && left == Stays(d) && w.processed == w.succeeded == 1 && w.failed == 0
  {
    var f := d.entries[0];
    var w1 := See(START, Inode(d.dev, d.ino));
    assert EraseNode(f.node, o, 0, d.dev, w1) == EraseFile(f.node, o, w1);
    var (left, w2) := EraseEntry(f, o, 0, d.dev, w1);
    assert left == Stays(f.node) && w2.processed == w2.succeeded == 1 && w2.failed == 0;
    OneEntry(f, left, w2, d.entries, o, d.dev, w1);
  }

  lemma {:induction false} OneEntry(e: Entry, left: Left, w2: Walk, es: seq<Entry>, o: Options, dev: nat, w: Walk)
    requires es == [e] && (left, w2) == EraseEntry(e, o, 0, dev, w)
    ensures EraseEntries(es, o, 0, dev, w) == (Keep(e, left), w2)
  {
    hide EraseEntry, Keep;
    assert es[1..] == [];
    assert EraseEntries(es[1..], o, 0, dev, w2) == ([], w2);
    assert Keep(e, left) + [] == Keep(e, left);
  }

  // ---------- complete erasure ----------

  /** The tree without regular files and without directories that hold nothing else. */
  ghost function Prune(n: Node): Left
    decreases n, 1
  {
    match n
    case File(_, _, _) => Gone
    case Dir(_, _, _, _, _, es) => if PruneEntries(es) == [] then Gone else Stays(n.(entries := PruneEntries(es)))
    case _ => Stays(n)
  }

  ghost function PruneEntries(es: seq<Entry>): seq<Entry>
    decreases es, 0
  {
    if es == [] then [] else Keep(es[0], Prune(es[0].node)) + PruneEntries(es[1..])
  }

  /** Everything below a node but the directories, in order. */
  ghost function Leaves(n: Node): seq<Node>
    decreases n, 1
  {
    match n case Dir(_, _, _, _, _, es) => EntryLeaves(es) case _ => [n]
  }

  ghost function EntryLeaves(es: seq<Entry>): seq<Node>
    decreases es, 0
  {
    if es == [] then [] else Leaves(es[0].node) + EntryLeaves(es[1..])
  }

  /** Everything can be erased: one mount, no failing call, depth to spare. */
  ghost predicate Erasable(n: Node, dev: nat, room: int)
    decreases n, 1
  {
    match n
    case File(erases, unlinks, _) => erases && unlinks
    case Dir(d, _, visits, opens, removes, es) => d == dev && visits && opens && removes && room >= 0
        && EntriesErasable(es, dev, room - 1)
    case _ => true
  }

  ghost predicate EntriesErasable(es: seq<Entry>, dev: nat, room: int)
    decreases es, 0
  {
    es == [] || (es[0].stats && Erasable(es[0].node, dev, room) && EntriesErasable(es[1..], dev, room))
  }

  /** The inode numbers of the directories, in the order of the walk. */
  ghost function Inodes(n: Node): seq<Inode>
    decreases n, 1
  {
    match n case Dir(dev, ino, _, _, _, es) => [Inode(dev, ino)] + EntryInodes(es) case _ => []
  }

  ghost function EntryInodes(es: seq<Entry>): seq<Inode>
    decreases es, 0
  {
    if es == [] then [] else Inodes(es[0].node) + EntryInodes(es[1..])
  }

  ghost predicate Distinct(s: seq<Inode>) {
    forall i, j :: 0 <= i < j < |s| ==> s[i] != s[j]
  }

  /** None of the directories ahead was seen, and no two of them are the same. */
  ghost predicate Ahead(seen: seq<Inode>, s: seq<Inode>) {
    Distinct(s) && forall i :: 0 <= i < |s| ==> s[i] !in seen
  }

  ghost predicate SeenWithin(before: seq<Inode>, after: seq<Inode>, s: seq<Inode>) {
    forall x :: x in after ==> x in before || x in s
  }

  lemma {:induction false} AheadSplits(seen: seq<Inode>, a: seq<Inode>, b: seq<Inode>, after: seq<Inode>)
    requires Ahead(seen, a + b) && SeenWithin(seen, after, a)
    ensures Ahead(seen, a) && Ahead(after, b)
  {
    forall i | 0 <= i < |b|
      ensures b[i] !in after && b[i] !in a && b[i] !in seen
    {
      assert (a + b)[|a| + i] == b[i];
      assert forall j :: 0 <= j < |a| ==> (a + b)[j] == a[j];
    }
    forall i | 0 <= i < |a| ensures a[i] !in seen {
      assert (a + b)[i] == a[i];
    }
    forall i, j | 0 <= i < j < |a| ensures a[i] != a[j] {
      assert (a + b)[i] == a[i] && (a + b)[j] == a[j];
    }
    forall i, j | 0 <= i < j < |b| ensures b[i] != b[j] {
      assert (a + b)[|a| + i] == b[i] && (a + b)[|a| + j] == b[j];
    }
  }

  lemma {:induction false} NodeErased(n: Node, o: Options, depth: nat, dev: nat, w: Walk)
    requires o.removeFile && o.removeDirs && Erasable(n, dev, o.maxDepth - depth - 1) && Ahead(w.seen, Inodes(n))
    ensures var (left, w') := EraseNode(n, o, depth, dev, w);
      && left == Prune(n) && w'.failed == w.failed && SeenWithin(w.seen, w'.seen, Inodes(n))
      && Reached(n, o, depth + 1, dev, w) == Leaves(n) && Count(Leaves(n), Overwrites) == |Files(n)|
    decreases n, 2
  {
    if n.Dir? {
      DirErased(n, o, depth + 1, dev, w);
    }
  }

  lemma {:induction false} DirErased(d: Node, o: Options, depth: nat, dev: nat, w: Walk)
    requires d.Dir? && o.removeFile && o.removeDirs && Erasable(d, dev, o.maxDepth - depth) && Ahead(w.seen, Inodes(d))
    ensures var (code, left, w') := EraseDir(d, o, depth, dev, w);
      && code == Success && left == Prune(d) && w'.failed == w.failed && SeenWithin(w.seen, w'.seen, Inodes(d))
      && Reached(d, o, depth, dev, w) == Leaves(d) && Count(Leaves(d), Overwrites) == |Files(d)|
    decreases d, 1
  {
    var self := Inode(d.dev, d.ino);
    assert Inodes(d)[0] == self;
    var w1 := See(w, self);
    assert Inodes(d) == [self] + EntryInodes(d.entries);
    assert SeenWithin(w.seen, w1.seen, [self]);
    AheadSplits(w.seen, [self], EntryInodes(d.entries), w1.seen);
    EntriesErased(d.entries, o, depth, dev, w1);
  }

  lemma {:induction false} EntriesErased(es: seq<Entry>, o: Options, depth: nat, dev: nat, w: Walk)
    requires o.removeFile && o.removeDirs && EntriesErasable(es, dev, o.maxDepth - depth - 1)
        && Ahead(w.seen, EntryInodes(es))
    ensures var (rest, w') := EraseEntries(es, o, depth, dev, w);
      && rest == PruneEntries(es) && w'.failed == w.failed && SeenWithin(w.seen, w'.seen, EntryInodes(es))
      && EntriesReached(es, o, depth, dev, w) == EntryLeaves(es)
      && Count(EntryLeaves(es), Overwrites) == |EntryFiles(es)|
    decreases es, 0
  {
    if es != [] {
      var e := es[0];
      AheadSplits(w.seen, Inodes(e.node), EntryInodes(es[1..]), w.seen);
      NodeErased(e.node, o, depth, dev, w);
      var (left, w1) := EraseNode(e.node, o, depth, dev, w);
      AheadSplits(w.seen, Inodes(e.node), EntryInodes(es[1..]), w1.seen);
      EntriesErased(es[1..], o, depth, dev, w1);
      CountAppend(Leaves(e.node), EntryLeaves(es[1..]), Overwrites);
    }
  }

  /** Symlink or special file below a node. */
  lemma {:induction false} PruneGoneIffNoKeeper(n: Node, path: seq<string>)
    ensures Prune(n).Gone? <==> Keepers(n, path) == []
    decreases n, 1
  {
    if n.Dir? {
      PruneEntriesGone(n.entries, path);
    }
  }

  lemma {:induction false} PruneEntriesGone(es: seq<Entry>, path: seq<string>)
    ensures PruneEntries(es) == [] <==> EntryKeepers(es, path) == []
    decreases es, 0
  {
    if es != [] {
      PruneGoneIffNoKeeper(es[0].node, path + [es[0].name]);
      PruneEntriesGone(es[1..], path);
    }
  }

  /** Every directory of a pruned tree leads to a symlink or special file. */
  ghost predicate OnlyAncestors(n: Node)
    decreases n, 1
  {
    match n
    case File(_, _, _) => false
    case Dir(_, _, _, _, _, es) => es != [] && EntriesOnlyAncestors(es)
    case _ => true
  }

  ghost predicate EntriesOnlyAncestors(es: seq<Entry>)
    decreases es, 0
  {
    es == [] || (OnlyAncestors(es[0].node) && EntriesOnlyAncestors(es[1..]))
  }

  lemma {:induction false} PruneLeavesAncestors(n: Node)
    ensures Prune(n).Stays? ==> OnlyAncestors(Prune(n).node)
    decreases n, 1
  {
    if n.Dir? {
      PruneEntriesLeaveAncestors(n.entries);
    }
  }

  lemma {:induction false} PruneEntriesLeaveAncestors(es: seq<Entry>)
    ensures EntriesOnlyAncestors(PruneEntries(es))
    decreases es, 0
  {
    if es != [] {
      PruneLeavesAncestors(es[0].node);
      PruneEntriesLeaveAncestors(es[1..]);
      var p := PruneEntries(es);
      assert p == Keep(es[0], Prune(es[0].node)) + PruneEntries(es[1..]);
      if Prune(es[0].node).Stays? {
        assert p[1..] == PruneEntries(es[1..]);
      } else {
        assert p == PruneEntries(es[1..]);
      }
    }
  }

  /** A complete erasure: on a single mount with distinct directory inodes, depth within the limit and no
      failing call, exactly the symlinks and special files are left, with the directories that lead to
      them and nothing else; if there are none, the folder itself is gone. */
  lemma {:induction false} CompleteErasure(root: Entry, o: Options)
    requires !IsDangerous(root.name) && root.stats && root.node.Dir? && o.removeFile && o.removeDirs
    requires Erasable(root.node, root.node.dev, o.maxDepth) && Distinct(Inodes(root.node))
    ensures var (code, left, w) := FolderErase(root, o);
      && code == Success && w.failed == 0 && w.succeeded == |Files(root.node)|
      && w.bytes == (o.passes * TotalSize(Leaves(root.node))) % TWO64
      && w.symlinks == Count(Leaves(root.node), IsLink)
      && LeftKeepers(left, []) == Keepers(root.node, [])
      && (left.Gone? <==> Keepers(root.node, []) == [])
      && (left.Stays? ==> OnlyAncestors(left.node))
  {
    var d := root.node;
    DirErased(d, o, 0, d.dev, START);
    EraseIsAccounted(root, o);
    PruneGoneIffNoKeeper(d, []);
    PruneLeavesAncestors(d);
    if Prune(d).Stays? {
      NoFilesAmongAncestors(Prune(d).node);
    }
  }

  lemma {:induction false} NoFilesAmongAncestors(n: Node)
    requires OnlyAncestors(n)
    ensures Files(n) == []
    decreases n, 1
  {
    if n.Dir? {
      NoFilesAmongEntries(n.entries);
    }
  }

  lemma {:induction false} NoFilesAmongEntries(es: seq<Entry>)
    requires EntriesOnlyAncestors(es)
    ensures EntryFiles(es) == []
    decreases es, 0
  {
    if es != [] {
      NoFilesAmongAncestors(es[0].node);
      NoFilesAmongEntries(es[1..]);
    }
  }

  // ---------- no directory twice ----------

  /** The walk comes to the directory: not too deep, readable, on this mount, and not seen before. */
  ghost predicate ComesTo(d: Node, o: Options, depth: nat, dev: nat, w: Walk)
    requires d.Dir?
  {
    depth <= o.maxDepth && d.visits && (o.followMount || d.dev == dev) && Inode(d.dev, d.ino) !in w.seen
  }

  /** The directories that a walk comes to, in its order. */
  ghost function Visited(n: Node, o: Options, depth: nat, dev: nat, w: Walk): seq<Inode>
    decreases n, 1
  {
    match n
    case Dir(d, i, _, opens, _, es) =>
      if !ComesTo(n, o, depth, dev, w) then []
      else [Inode(d, i)] + (if opens then EntriesVisited(es, o, depth, dev, See(w, Inode(d, i))) else [])
    case _ => []
  }

  ghost function EntriesVisited(es: seq<Entry>, o: Options, depth: nat, dev: nat, w: Walk): seq<Inode>
    decreases es, 0
  {
    if es == [] then []
    else
      (if es[0].stats then Visited(es[0].node, o, depth + 1, dev, w) else [])
      + EntriesVisited(es[1..], o, depth, dev, EraseEntry(es[0], o, depth, dev, w).1)
  }

  /** What is remembered: the first 1024. */
  ghost function Remembered(s: seq<Inode>): seq<Inode> {
    if |s| <= 1024 then s else s[..1024]
  }

  lemma {:induction false} RemembersMore(a: seq<Inode>, b: seq<Inode>)
    ensures Remembered(Remembered(a) + b) == Remembered(a + b)
  {
  }

  lemma {:induction false} AllRemembered(s: seq<Inode>)
    requires |s| <= 1024
    ensures s + [] == s && Remembered(s + []) == s
  {
  }

  lemma {:induction false} RememberedLength(s: seq<Inode>)
    ensures |Remembered(s)| <= 1024
  {
  }

  lemma {:induction false} NodeSeen(n: Node, o: Options, depth: nat, dev: nat, w: Walk)
    requires |w.seen| <= 1024
    ensures EraseNode(n, o, depth, dev, w).1.seen == Remembered(w.seen + Visited(n, o, depth + 1, dev, w))
    decreases n, 2
  {
    if n.Dir? {
      DirSeen(n, o, depth + 1, dev, w);
    } else {
      assert w.seen + [] == w.seen;
    }
  }

  lemma {:induction false} DirSeen(d: Node, o: Options, depth: nat, dev: nat, w: Walk)
    requires d.Dir? && |w.seen| <= 1024
    ensures EraseDir(d, o, depth, dev, w).2.seen == Remembered(w.seen + Visited(d, o, depth, dev, w))
    decreases d, 1
  {
    hide EraseEntries, EntriesVisited;
    var i := Inode(d.dev, d.ino);
    var w1 := See(w, i);
    assert w1.seen == Remembered(w.seen + [i]);
    if !ComesTo(d, o, depth, dev, w) {
      assert w.seen + [] == w.seen;
    } else if d.opens {
      EntriesSeen(d.entries, o, depth, dev, w1);
      var more := EntriesVisited(d.entries, o, depth, dev, w1);
      RemembersMore(w.seen + [i], more);
      assert w.seen + ([i] + more) == (w.seen + [i]) + more;
    } else {
      assert [i] + [] == [i];
    }
  }

  lemma {:induction false} EntriesSeen(es: seq<Entry>, o: Options, depth: nat, dev: nat, w: Walk)
    requires |w.seen| <= 1024
    ensures EraseEntries(es, o, depth, dev, w).1.seen == Remembered(w.seen + EntriesVisited(es, o, depth, dev, w))
    decreases es, 0
  {
    hide EraseNode, Visited, Keep, Remembered;
    if es == [] {
      AllRemembered(w.seen);
    } else {
      var e := es[0];
      var first := if e.stats then Visited(e.node, o, depth + 1, dev, w) else [];
      AllRemembered(w.seen);
      RememberedLength(w.seen + first);
      if e.stats {
        NodeSeen(e.node, o, depth, dev, w);
      } else {
        assert w.seen + [] == w.seen;
      }
      var w1 := EraseEntry(e, o, depth, dev, w).1;
      EntriesSeen(es[1..], o, depth, dev, w1);
      var rest := EntriesVisited(es[1..], o, depth, dev, w1);
      RemembersMore(w.seen + first, rest);
      assert w.seen + (first + rest) == (w.seen + first) + rest;
    }
  }

  /** As long as all directories come to are remembered, they are different. */
  lemma {:induction false} VisitedDistinct(n: Node, o: Options, depth: nat, dev: nat, w: Walk)
    requires Distinct(w.seen) && |w.seen + Visited(n, o, depth, dev, w)| <= 1024
    ensures Distinct(w.seen + Visited(n, o, depth, dev, w))
    decreases n, 1
  {
    hide EntriesVisited;
    if n.Dir? && ComesTo(n, o, depth, dev, w) {
      var i := Inode(n.dev, n.ino);
      var w1 := See(w, i);
      assert w1.seen == w.seen + [i];
      if n.opens {
        var more := EntriesVisited(n.entries, o, depth, dev, w1);
        EntriesVisitedDistinct(n.entries, o, depth, dev, w1);
        assert w.seen + ([i] + more) == w1.seen + more;
      } else {
        assert [i] + [] == [i];
      }
    } else {
      assert w.seen + [] == w.seen;
    }
  }

  lemma {:induction false} EntriesVisitedDistinct(es: seq<Entry>, o: Options, depth: nat, dev: nat, w: Walk)
    requires Distinct(w.seen) && |w.seen + EntriesVisited(es, o, depth, dev, w)| <= 1024
    ensures Distinct(w.seen + EntriesVisited(es, o, depth, dev, w))
    decreases es, 0
  {
    hide EraseNode, Visited, Distinct;
    if es == [] {
      assert w.seen + [] == w.seen;
    } else {
      var e := es[0];
      var first := if e.stats then Visited(e.node, o, depth + 1, dev, w) else [];
      if e.stats {
        VisitedDistinct(e.node, o, depth + 1, dev, w);
        NodeSeen(e.node, o, depth, dev, w);
      } else {
        assert w.seen + [] == w.seen;
      }
      var w1 := EraseEntry(e, o, depth, dev, w).1;
      assert w1.seen == w.seen + first;
      var rest := EntriesVisited(es[1..], o, depth, dev, w1);
      assert w.seen + (first + rest) == w1.seen + rest;
      EntriesVisitedDistinct(es[1..], o, depth, dev, w1);
    }
  }

  ghost function FolderVisited(root: Entry, o: Options): seq<Inode> {
    if IsDangerous(root.name) || !root.stats || !root.node.Dir? then []
    else Visited(root.node, o, 0, root.node.dev, START)
  }

  /** The walk remembers the first 1024 directories it comes to, in order; when there are no more than these, it
      comes to none twice, however the tree is tied into itself. */
  lemma {:induction false} NoDirectoryTwice(root: Entry, o: Options)
    ensures FolderErase(root, o).2.seen == Remembered(FolderVisited(root, o))
    ensures |FolderVisited(root, o)| <= 1024 ==> Distinct(FolderVisited(root, o))
  {
    hide EraseDir, Visited;
    if !IsDangerous(root.name) && root.stats && root.node.Dir? {
      var d := root.node;
      assert [] + Visited(d, o, 0, d.dev, START) == Visited(d, o, 0, d.dev, START);
      DirSeen(d, o, 0, d.dev, START);
      if |FolderVisited(root, o)| <= 1024 {
        VisitedDistinct(d, o, 0, d.dev, START);
      }
    }
  }

  /** The code of a directory: too deep, unreadable or not to be opened is a failure, another mount is skipped without
      one, and a directory seen before is a cycle. */
  lemma {:induction false} CodeOfDirectory(d: Node, o: Options, depth: nat, dev: nat, w: Walk)
    requires d.Dir?
    ensures var (code, left, w') := EraseDir(d, o, depth, dev, w);
      && (code == Failure <==>
            || depth > o.maxDepth || !d.visits
            || ((o.followMount || d.dev == dev) && Inode(d.dev, d.ino) !in w.seen && !d.opens))
      && (code == CycleDetected <==>
            depth <= o.maxDepth && d.visits && (o.followMount || d.dev == dev) && Inode(d.dev, d.ino) in w.seen)
      && (code == CycleDetected || code == Failure ==> left == Stays(d) && w' == w.(seen := w'.seen))
      && (code == Success && !o.followMount && d.dev != dev ==> left == Stays(d) && w' == w)
      && code != DangerousPath
  {
    hide EraseEntries;
  }

  /** The code of a folder that is no system folder: success once it can be read and opened, whatever becomes of
      what is in it. */
  lemma {:induction false} CodeOfFolder(root: Entry, o: Options)
    requires !IsDangerous(root.name)
    ensures FolderErase(root, o).0
         == if root.stats && root.node.Dir? && root.node.visits && root.node.opens then Success else Failure
  {
    hide EraseEntries;
  }
}
