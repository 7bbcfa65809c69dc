/** src/day9.rs: the disk map, its checksum and the two ways of compacting it. */
module Day9 {
  import opened Common

  /** A block of a file: where it is on the disk and which file it belongs to. */
  datatype Block = Block(index: nat, file: nat)

  /** A free span: where it starts and how many blocks it holds. */
  datatype Span = Span(start: nat, size: nat)

  /** The contents of a disk as a value. */
  datatype DiskState = DiskState(blocks: seq<Block>, free: seq<Span>)

  /** `Disk`: the file blocks, in the order they were laid out, and the free spans between them. */
  class Disk {
    var blocks: seq<Block>
    var free: seq<Span>

    function State(): DiskState
      reads this
    {
      DiskState(blocks, free)
    }

    constructor (blocks: seq<Block>, free: seq<Span>)
      ensures this.blocks == blocks && this.free == free
    {
      this.blocks := blocks;
      this.free := free;
    }
  }

  /**
   * `checksum`: the sum of block index times file id. It is at least each block's term, and zero
   * exactly when every block sits at index 0 or holds file 0.
   */
  function Checksum(blocks: seq<Block>): (r: nat)
    ensures forall i | 0 <= i < |blocks| :: Term(blocks[i]) <= r
    ensures r == 0 <==> forall i | 0 <= i < |blocks| :: Term(blocks[i]) == 0
  {
    if blocks == [] then 0 else Checksum(blocks[..|blocks| - 1]) + Term(blocks[|blocks| - 1])
  }

  /** One block's share of the checksum. */
  function Term(b: Block): nat
  {
    b.index * b.file
  }

  /** The checksum does not depend on the order of the blocks, so sorting them first changes nothing. */
  lemma {:induction false} ChecksumPermutation(a: seq<Block>, b: seq<Block>)
    requires multiset(a) == multiset(b)
    ensures Checksum(a) == Checksum(b)
    decreases |a|
  {
    if a == [] {
      assert |b| == |multiset(b)| == 0;
    } else {
      var x := a[|a| - 1];
      assert x in multiset(a);
      var j :| 0 <= j < |b| && b[j] == x;
      var rest := b[..j] + b[j + 1..];
      MultisetRemove(a, |a| - 1);
      MultisetRemove(b, j);
      assert a[..|a| - 1] + a[|a|..] == a[..|a| - 1];
      ChecksumPermutation(a[..|a| - 1], rest);
      ChecksumRemove(b, j);
    }
  }

  /** Taking the element at `j` out of a sequence takes one copy of it out of its multiset. */
  lemma MultisetRemove<T>(s: seq<T>, j: nat)
    requires j < |s|
    ensures multiset(s[..j] + s[j + 1..]) == multiset(s) - multiset{s[j]}
  {
    assert s == s[..j] + [s[j]] + s[j + 1..];
  }

  /** Taking one block out of the sum. */
  lemma {:induction false} ChecksumRemove(b: seq<Block>, j: nat)
    requires j < |b|
    ensures Checksum(b) == Checksum(b[..j] + b[j + 1..]) + Term(b[j])
    decreases |b|
  {
    var last := |b| - 1;
    if j < last {
      var b' := b[..last];
      ChecksumRemove(b', j);
      var rest := b[..j] + b[j + 1..];
      assert rest[..|rest| - 1] == b'[..j] + b'[j + 1..];
      assert rest[|rest| - 1] == b[last];
    } else {
      assert b[..j] + b[j + 1..] == b[..last];
    }
  }

  /** Block indices strictly increase along the vector, as `parse` lays them out. */
  predicate StrictlySorted(blocks: seq<Block>)
  {
    forall p, q | 0 <= p < q < |blocks| :: blocks[p].index < blocks[q].index
  }

  /**
   * `defrag`: walk the disk positions from 0; a position held by the next block from the front is
   * kept, and a free one gets the last not yet moved block from the back, until the front meets the
   * back. Rust indexes `blocks[len - 1]` and decrements `backwards_idx`, so the disk must not be
   * empty and its first block must sit at index 0 (otherwise `backwards_idx` underflows).
   */
  method Defrag(disk: Disk)
    requires |disk.blocks| >= 1 && StrictlySorted(disk.blocks) && disk.blocks[0].index == 0
    modifies disk
    ensures disk.free == old(disk.free)
    ensures |disk.blocks| == |old(disk.blocks)|
    ensures forall p | 0 <= p < |disk.blocks| :: disk.blocks[p].file == old(disk.blocks)[p].file
    ensures forall p | 0 <= p < |disk.blocks| :: disk.blocks[p].index <= old(disk.blocks)[p].index
    ensures exists k | 0 <= k <= |disk.blocks| :: KeptThenMoved(disk.blocks, old(disk.blocks), k)
    ensures Compact(disk.blocks)
  {
    var blocks := disk.blocks;
    ghost var orig := blocks;
    var n := |blocks|;
    var maxIdx := blocks[n - 1].index;
    var forward: nat := 0;
    var backwards: nat := n - 1;
    var backwardsBlock := maxIdx;
    var i: nat := 0;
    Start(orig);
    while i <= maxIdx
      invariant i <= maxIdx + 1 && disk.free == old(disk.free)
      invariant DefragInv(blocks, orig, forward, backwards, i)
      invariant backwardsBlock == blocks[backwards].index
    {
      if i > backwardsBlock {
        break;
      }
      Ahead(blocks, orig, forward, backwards, i);
      if blocks[forward].index == i {
        Matched(blocks, orig, forward, backwards, i);
        forward := forward + 1;
      } else {
        Moved(blocks, orig, forward, backwards, i);
        blocks := blocks[backwards := Block(i, blocks[backwards].file)];
        backwards := backwards - 1;
        backwardsBlock := blocks[backwards].index;
      }
      i := i + 1;
    }
    Finish(blocks, orig, forward, backwards, i);
    disk.blocks := blocks;
  }

  /**
   * What holds before each position `i` of `defrag`: `forward` blocks from the front kept and the
   * blocks after `backwards` moved, together holding the indices below `i`, each once.
   */
  predicate DefragInv(blocks: seq<Block>, orig: seq<Block>, forward: nat, backwards: nat, i: nat)
  {
    var n := |orig|;
    && |blocks| == n && forward <= backwards + 1 && backwards < n
    && StrictlySorted(orig) && orig[0].index == 0 && orig[n - 1].index + 1 >= i
    && (i == 0 || forward >= 1)
    && forward + (n - 1 - backwards) == i
    && (forall p | 0 <= p < n :: AtPosition(blocks, orig, forward, backwards, i, p))
    && (forall p, q | 0 <= p < q < n :: Apart(blocks, forward, backwards, p, q))
    && (forall j | 0 <= j < i :: HeldBy(blocks, forward, backwards, j))
  }

  /**
   * Position `p` keeps its file; up to `backwards` it holds its original block, which lies below
   * `i` exactly when it is in front of `forward`; after `backwards` it holds a moved block below `i`.
   */
  predicate AtPosition(blocks: seq<Block>, orig: seq<Block>, forward: nat, backwards: nat, i: nat, p: nat)
  {
    && p < |blocks| && p < |orig|
    && blocks[p].file == orig[p].file
    && (p <= backwards ==> blocks[p] == orig[p])
    && (p < forward ==> orig[p].index < i)
    && (forward <= p <= backwards ==> orig[p].index >= i)
    && (backwards < p ==> blocks[p].index < i && blocks[p].index < orig[p].index)
  }

  /** Placed blocks at positions `p < q` hold different indices, and moved ones descending indices. */
  predicate Apart(blocks: seq<Block>, forward: nat, backwards: nat, p: nat, q: nat)
  {
    p < q < |blocks| ==>
      && (Placed(forward, backwards, p) && Placed(forward, backwards, q) ==> blocks[p].index != blocks[q].index)
      && (backwards < p ==> blocks[p].index > blocks[q].index)
  }

  /** Before position 0 nothing is placed. */
  lemma Start(orig: seq<Block>)
    requires |orig| >= 1 && StrictlySorted(orig) && orig[0].index == 0
    ensures DefragInv(orig, orig, 0, |orig| - 1, 0)
  {
    var n := |orig|;
    var last := n - 1;
    forall p | 0 <= p < n ensures AtPosition(orig, orig, 0, last, 0, p) {
    }
    forall p, q | 0 <= p < q < n ensures Apart(orig, 0, last, p, q) {
    }
  }

  /** While the back block's index has not been passed, some block is still unplaced. */
  lemma Ahead(blocks: seq<Block>, orig: seq<Block>, forward: nat, backwards: nat, i: nat)
    requires DefragInv(blocks, orig, forward, backwards, i) && i <= blocks[backwards].index
    ensures forward <= backwards
  {
    assert AtPosition(blocks, orig, forward, backwards, i, backwards);
  }

  /**
   * The shape `defrag` leaves: the first `k` blocks where they were, and every later block moved
   * to a smaller index, the last block to the smallest one.
   */
  predicate KeptThenMoved(now: seq<Block>, before: seq<Block>, k: nat)
    requires |now| == |before|
  {
    && k <= |now|
    && (forall p | 0 <= p < k :: now[p] == before[p])
    && (forall p | k <= p < |now| :: now[p].index < before[p].index)
    && (forall p, q | k <= p < q < |now| :: now[p].index > now[q].index)
  }

  /** The blocks already placed, at the front before `forward` and at the back after `backwards`. */
  predicate Placed(forward: nat, backwards: nat, p: nat)
  {
    p < forward || p > backwards
  }

  /** Some placed block sits at index `j`. */
  predicate HeldBy(blocks: seq<Block>, forward: nat, backwards: nat, j: nat)
  {
    exists p | 0 <= p < |blocks| && Placed(forward, backwards, p) :: blocks[p].index == j
  }

  /** Some block sits at index `j`. */
  predicate Held(blocks: seq<Block>, j: nat)
  {
    exists p | 0 <= p < |blocks| :: blocks[p].index == j
  }

  /** After the defragmentation: the blocks hold the indices `0..n`, each exactly once. */
  predicate Compact(blocks: seq<Block>)
  {
    && (forall p | 0 <= p < |blocks| :: blocks[p].index < |blocks|)
    && (forall p, q | 0 <= p < q < |blocks| :: blocks[p].index != blocks[q].index)
    && (forall j | 0 <= j < |blocks| :: Held(blocks, j))
  }

  /** Keeping the front block at index `i` keeps the placed blocks apart and covers `i`. */
  lemma Matched(blocks: seq<Block>, orig: seq<Block>, forward: nat, backwards: nat, i: nat)
    requires DefragInv(blocks, orig, forward, backwards, i)
    requires forward <= backwards && blocks[forward].index == i
    ensures DefragInv(blocks, orig, forward + 1, backwards, i + 1)
  {
    var n := |orig|;
    var next := forward + 1;
    var i' := i + 1;
    assert AtPosition(blocks, orig, forward, backwards, i, forward);
    forall p | 0 <= p < n ensures AtPosition(blocks, orig, next, backwards, i', p) {
      assert AtPosition(blocks, orig, forward, backwards, i, p);
      assert forward < p ==> orig[forward].index < orig[p].index;
    }
    forall p, q | 0 <= p < q < n ensures Apart(blocks, next, backwards, p, q) {
      assert Apart(blocks, forward, backwards, p, q);
      assert AtPosition(blocks, orig, forward, backwards, i, p);
      assert AtPosition(blocks, orig, forward, backwards, i, q);
    }
    forall j: nat | j < i' ensures HeldBy(blocks, next, backwards, j) {
      if j == i {
        assert Placed(next, backwards, forward);
      } else {
        assert HeldBy(blocks, forward, backwards, j);
        var p :| 0 <= p < |blocks| && Placed(forward, backwards, p) && blocks[p].index == j;
        assert Placed(next, backwards, p);
      }
    }
  }

  /** Moving the back block to the free index `i` keeps the placed blocks apart and covers `i`. */
  lemma Moved(blocks: seq<Block>, orig: seq<Block>, forward: nat, backwards: nat, i: nat)
    requires DefragInv(blocks, orig, forward, backwards, i)
    requires forward <= backwards && blocks[forward].index != i
    ensures backwards >= 1
    ensures DefragInv(blocks[backwards := Block(i, blocks[backwards].file)], orig, forward, backwards - 1, i + 1)
  {
    var n := |orig|;
    var after := blocks[backwards := Block(i, blocks[backwards].file)];
    assert AtPosition(blocks, orig, forward, backwards, i, forward);
    assert AtPosition(blocks, orig, forward, backwards, i, backwards);
    assert orig[forward].index <= orig[backwards].index;
    var next := backwards - 1;
    var i' := i + 1;
    forall p | 0 <= p < n ensures AtPosition(after, orig, forward, next, i', p) {
      assert AtPosition(blocks, orig, forward, backwards, i, p);
    }
    forall p, q | 0 <= p < q < n ensures Apart(after, forward, next, p, q) {
      assert Apart(blocks, forward, backwards, p, q);
      assert AtPosition(blocks, orig, forward, backwards, i, p);
      assert AtPosition(blocks, orig, forward, backwards, i, q);
    }
    forall j: nat | j < i' ensures HeldBy(after, forward, next, j) {
      if j == i {
        assert Placed(forward, next, backwards);
      } else {
        assert HeldBy(blocks, forward, backwards, j);
        var p :| 0 <= p < |blocks| && Placed(forward, backwards, p) && blocks[p].index == j;
        assert Placed(forward, next, p) && after[p] == blocks[p];
      }
    }
  }

  /** When the loop ends the front has met the back: every block is placed, at the indices `0..n`. */
  lemma Finish(blocks: seq<Block>, orig: seq<Block>, forward: nat, backwards: nat, i: nat)
    requires DefragInv(blocks, orig, forward, backwards, i)
    requires i > orig[|orig| - 1].index || i > blocks[backwards].index
    ensures |blocks| == |orig|
    ensures forall p | 0 <= p < |blocks| :: blocks[p].file == orig[p].file
    ensures forall p | 0 <= p < |blocks| :: blocks[p].index <= orig[p].index
    ensures exists k | 0 <= k <= |blocks| :: KeptThenMoved(blocks, orig, k)
    ensures Compact(blocks)
  {
    var n := |orig|;
    assert AtPosition(blocks, orig, forward, backwards, i, backwards);
    assert backwards < n - 1 ==> orig[backwards].index < orig[n - 1].index;
    assert forward == backwards + 1;
    forall p | 0 <= p < n
      ensures blocks[p].file == orig[p].file && blocks[p].index < i && blocks[p].index <= orig[p].index
      ensures forward <= p ==> blocks[p].index < orig[p].index
      ensures p < forward ==> blocks[p] == orig[p]
    {
      assert AtPosition(blocks, orig, forward, backwards, i, p);
    }
    forall p, q | 0 <= p < q < n ensures blocks[p].index != blocks[q].index {
      assert Apart(blocks, forward, backwards, p, q);
    }
    forall p, q | forward <= p < q < n ensures blocks[p].index > blocks[q].index {
      assert Apart(blocks, forward, backwards, p, q);
    }
    assert KeptThenMoved(blocks, orig, forward);
    forall j | 0 <= j < n ensures Held(blocks, j) {
      assert HeldBy(blocks, forward, backwards, j);
    }
  }

  /** Moving blocks to smaller indices without changing their files never raises the checksum. */
  lemma {:induction false} ChecksumShrinks(now: seq<Block>, before: seq<Block>)
    requires |now| == |before|
    requires forall p | 0 <= p < |now| :: now[p].file == before[p].file && now[p].index <= before[p].index
    ensures Checksum(now) <= Checksum(before)
    decreases |now|
  {
    if now != [] {
      var m := |now| - 1;
      ChecksumShrinks(now[..m], before[..m]);
      TermShrinks(now[m], before[m]);
    }
  }

  /** A block moved to a smaller index contributes no more. */
  lemma TermShrinks(a: Block, b: Block)
    requires a.file == b.file && a.index <= b.index
    ensures Term(a) <= Term(b)
  {
    assert a.index * a.file <= b.index * a.file;
  }

  /** After `defrag` the checksum is at most what it was. */
  lemma DefragChecksum(now: seq<Block>, before: seq<Block>)
    requires |now| == |before|
    requires forall p | 0 <= p < |now| :: now[p].file == before[p].file
    requires forall p | 0 <= p < |now| :: now[p].index <= before[p].index
    ensures Checksum(now) <= Checksum(before)
  {
    ChecksumShrinks(now, before);
  }

  // ---------------------------------------------------------------------------------------------
  // smart_defrag: whole files, the last one first, each moved once into the first free span to its
  // left that holds it.

  /** One file as `smart_defrag` collects it: its id, first index, length and position in `blocks`. */
  datatype FileRun = FileRun(file: nat, start: nat, size: nat, pos: nat)


  /** Block ids never decrease along the vector, as `parse` lays them out. */
  predicate Grouped(blocks: seq<Block>)
  {
    forall p | 0 <= p < |blocks| :: InOrder(blocks, p)
  }

  /** The block after position `p`, if any, belongs to the same or a later file. */
  predicate InOrder(blocks: seq<Block>, p: nat)
  {
    p + 1 < |blocks| ==> blocks[p].file <= blocks[p + 1].file
  }

  /**
   * The maximal runs of neighbouring blocks with the same file, in vector order: the reference
   * for what the collecting loop of `smart_defrag` builds.
   */
  function RunsOf(blocks: seq<Block>): (runs: seq<FileRun>)
    ensures |runs| == 0 <==> |blocks| == 0
    ensures |runs| <= |blocks|
    ensures |runs| > 0 ==> runs[|runs| - 1].file == blocks[|blocks| - 1].file
    ensures forall k | 0 <= k < |runs| :: runs[k].pos + runs[k].size <= |blocks|
  {
    if blocks == [] then []
    else
      var m := |blocks| - 1;
      var runs := RunsOf(blocks[..m]);
      if m >= 1 && blocks[m - 1].file == blocks[m].file then
        var r := runs[|runs| - 1];
        runs[|runs| - 1 := r.(size := r.size + 1)]
      else
        runs + [FileRun(blocks[m].file, blocks[m].index, 1, m)]
  }

  /**
   * `runs` cut `blocks` into consecutive, non-empty pieces in vector order, each piece all of one
   * file, neighbouring pieces of different files, each starting at the index of its first block.
   */
  predicate Partition(blocks: seq<Block>, runs: seq<FileRun>)
  {
    && (|runs| == 0 <==> |blocks| == 0)
    && (|runs| > 0 ==> runs[0].pos == 0 && runs[|runs| - 1].pos + runs[|runs| - 1].size == |blocks|)
    && (forall k | 0 <= k < |runs| :: RunAt(blocks, runs, k))
  }

  /** Run `k` is a non-empty piece of one file, followed directly by a run of another file. */
  predicate RunAt(blocks: seq<Block>, runs: seq<FileRun>, k: nat)
  {
    && k < |runs|
    && runs[k].size >= 1 && runs[k].pos + runs[k].size <= |blocks|
    && runs[k].start == blocks[runs[k].pos].index
    && (k + 1 < |runs| ==> runs[k].pos + runs[k].size == runs[k + 1].pos && runs[k].file != runs[k + 1].file)
    && (forall p | runs[k].pos <= p < runs[k].pos + runs[k].size :: blocks[p].file == runs[k].file)
  }

  /** `RunsOf` partitions the blocks into maximal runs. */
  lemma {:induction false} RunsPartition(blocks: seq<Block>)
    ensures Partition(blocks, RunsOf(blocks))
    decreases |blocks|
  {
    if blocks != [] {
      var m := |blocks| - 1;
      var runs := RunsOf(blocks[..m]);
      RunsPartition(blocks[..m]);
      if m >= 1 && blocks[m - 1].file == blocks[m].file {
        var last := |runs| - 1;
        assert RunsOf(blocks) == runs[last := runs[last].(size := runs[last].size + 1)];
        PartitionExtend(blocks, runs);
      } else {
        assert RunsOf(blocks) == runs + [FileRun(blocks[m].file, blocks[m].index, 1, m)];
        PartitionPush(blocks, runs);
      }
    }
  }

  /** A block of the same file as the one before it lengthens the last run. */
  lemma PartitionExtend(blocks: seq<Block>, runs: seq<FileRun>)
    requires |blocks| >= 2 && blocks[|blocks| - 2].file == blocks[|blocks| - 1].file
    requires Partition(blocks[..|blocks| - 1], runs)
    ensures |runs| >= 1
    ensures Partition(blocks, runs[|runs| - 1 := runs[|runs| - 1].(size := runs[|runs| - 1].size + 1)])
  {
    var m := |blocks| - 1;
    var prefix := blocks[..m];
    var last := |runs| - 1;
    var result := runs[last := runs[last].(size := runs[last].size + 1)];
    assert RunAt(prefix, runs, last);
    assert prefix[m - 1] == blocks[m - 1];
    forall k | 0 <= k < |result| ensures RunAt(blocks, result, k) {
      assert RunAt(prefix, runs, k);
      assert prefix[runs[k].pos] == blocks[runs[k].pos];
      forall p | result[k].pos <= p < result[k].pos + result[k].size ensures blocks[p].file == result[k].file {
        if p < m {
          assert prefix[p] == blocks[p];
        }
      }
    }
  }

  /** A block of another file than the one before it starts a new run. */
  lemma PartitionPush(blocks: seq<Block>, runs: seq<FileRun>)
    requires |blocks| >= 1
    requires |blocks| == 1 || blocks[|blocks| - 2].file != blocks[|blocks| - 1].file
    requires Partition(blocks[..|blocks| - 1], runs)
    ensures Partition(blocks, runs + [FileRun(blocks[|blocks| - 1].file, blocks[|blocks| - 1].index, 1, |blocks| - 1)])
  {
    var m := |blocks| - 1;
    var prefix := blocks[..m];
    var result := runs + [FileRun(blocks[m].file, blocks[m].index, 1, m)];
    if m >= 1 {
      assert RunAt(prefix, runs, |runs| - 1);
      assert prefix[m - 1] == blocks[m - 1];
    }
    forall k | 0 <= k < |result| ensures RunAt(blocks, result, k) {
      if k < |runs| {
        assert RunAt(prefix, runs, k);
        assert prefix[runs[k].pos] == blocks[runs[k].pos];
        forall p | result[k].pos <= p < result[k].pos + result[k].size ensures blocks[p].file == result[k].file {
          assert prefix[p] == blocks[p];
        }
      }
    }
  }

  /**
   * The collecting loop indexes its vector by file id, so a second block of a file whose id is not
   * the number of runs before it panics: `Fits` says that never happens.
   */
  predicate Fits(blocks: seq<Block>)
  {
    forall i | 0 <= i < |blocks| :: FitsAt(blocks, i)
  }

  /** The block at `i`, if it continues the run before it, has an id below the number of runs so far. */
  predicate FitsAt(blocks: seq<Block>, i: nat)
  {
    1 <= i < |blocks| && blocks[i].file == blocks[i - 1].file ==> blocks[i].file < |RunsOf(blocks[..i])|
  }

  /** Run ids are at least their position, as they are when ids increase. */
  predicate Numbered(runs: seq<FileRun>)
  {
    forall k | 0 <= k < |runs| :: runs[k].file >= k
  }

  /**
   * The first loop of `smart_defrag`: one entry per run of blocks, where a further block of the
   * current file grows the entry at the file's id. `None` is the out-of-range panic.
   */
  method CollectFiles(blocks: seq<Block>) returns (r: Option<seq<FileRun>>)
    ensures r.Some? <==> Fits(blocks)
    ensures r.Some? && Grouped(blocks) ==> r.value == RunsOf(blocks)
  {
    var files: seq<FileRun> := [];
    var current: Option<nat> := None;
    for i := 0 to |blocks|
      invariant |files| == |RunsOf(blocks[..i])|
      invariant current == if i == 0 then None else Some(blocks[i - 1].file)
      invariant Fits(blocks[..i])
      invariant Grouped(blocks) ==> files == RunsOf(blocks[..i]) && Numbered(files)
    {
      var b := blocks[i];
      if current != Some(b.file) {
        NewRun(blocks, i, files);
        current := Some(b.file);
        files := files + [FileRun(b.file, b.index, 1, i)];
      } else {
        if current.value >= |files| {
          assert !FitsAt(blocks, i);
          return None;
        }
        SameRun(blocks, i, files);
        var f := files[current.value];
        files := files[current.value := f.(size := f.size + 1)];
      }
    }
    assert blocks[..|blocks|] == blocks;
    return Some(files);
  }

  /** A block of another file than the one before it: the collected vector grows by a new entry. */
  lemma NewRun(blocks: seq<Block>, i: nat, files: seq<FileRun>)
    requires i < |blocks| && (i == 0 || blocks[i - 1].file != blocks[i].file)
    requires |files| == |RunsOf(blocks[..i])| && Fits(blocks[..i])
    requires Grouped(blocks) ==> files == RunsOf(blocks[..i]) && Numbered(files)
    ensures |files| + 1 == |RunsOf(blocks[..i + 1])| && Fits(blocks[..i + 1])
    ensures Grouped(blocks) ==>
      var grown := files + [FileRun(blocks[i].file, blocks[i].index, 1, i)];
      grown == RunsOf(blocks[..i + 1]) && Numbered(grown)
  {
    var s := blocks[..i + 1];
    assert s[..i] == blocks[..i];
    FitsGrow(blocks, i);
    if Grouped(blocks) && i >= 1 {
      assert InOrder(blocks, i - 1);
      assert files[|files| - 1].file >= |files| - 1;
    }
  }

  /**
   * A further block of the current file: the loop grows the entry at the file's id, which under
   * increasing ids is the last one.
   */
  lemma SameRun(blocks: seq<Block>, i: nat, files: seq<FileRun>)
    requires 1 <= i < |blocks| && blocks[i - 1].file == blocks[i].file && blocks[i].file < |files|
    requires |files| == |RunsOf(blocks[..i])| && Fits(blocks[..i])
    requires Grouped(blocks) ==> files == RunsOf(blocks[..i]) && Numbered(files)
    ensures |files| == |RunsOf(blocks[..i + 1])| && Fits(blocks[..i + 1])
    ensures Grouped(blocks) ==>
      var f := files[blocks[i].file];
      var grown := files[blocks[i].file := f.(size := f.size + 1)];
      grown == RunsOf(blocks[..i + 1]) && Numbered(grown)
  {
    var s := blocks[..i + 1];
    assert s[..i] == blocks[..i];
    FitsGrow(blocks, i);
    if Grouped(blocks) {
      assert blocks[..i][i - 1] == blocks[i - 1];
      assert files[|files| - 1].file >= |files| - 1;
    }
  }

  /** `Fits` of one more block adds the condition for that block. */
  lemma FitsGrow(blocks: seq<Block>, i: nat)
    requires i < |blocks| && Fits(blocks[..i])
    requires FitsAt(blocks, i)
    ensures Fits(blocks[..i + 1])
  {
    var s := blocks[..i + 1];
    forall j | 0 <= j < |s| ensures FitsAt(s, j) {
      assert s[..j] == blocks[..j];
      if j < i {
        assert FitsAt(blocks[..i], j);
        assert blocks[..i][..j] == blocks[..j];
      }
    }
  }

  /** Free span `span` lies at or left of `start` and holds `size` blocks. */
  predicate Fit(span: Span, start: nat, size: nat)
  {
    span.start <= start && size <= span.size
  }

  /** The `find_map` of `smart_defrag`: the first free span that fits, by its place in the vector. */
  function FirstFit(free: seq<Span>, start: nat, size: nat): (r: Option<nat>)
    ensures r.Some? ==> r.value < |free| && Fit(free[r.value], start, size)
    ensures forall k | 0 <= k < |free| && (r.None? || k < r.value) :: !Fit(free[k], start, size)
  {
    if free == [] then None
    else if Fit(free[0], start, size) then Some(0)
    else match FirstFit(free[1..], start, size)
      case None => None
      case Some(k) => Some(k + 1)
  }

  /** Position `p` is one of the run's positions in the block vector. */
  predicate InRun(f: FileRun, p: nat)
  {
    f.pos <= p < f.pos + f.size
  }

  /** The blocks at the run's positions rewritten to sit from index `at` on. */
  function Place(blocks: seq<Block>, f: FileRun, at: nat): (r: seq<Block>)
    ensures |r| == |blocks|
  {
    seq(|blocks|, p requires 0 <= p < |blocks| => if InRun(f, p) then Block(at + (p - f.pos), f.file) else blocks[p])
  }

  /** Every run lies inside a vector of `n` blocks. */
  predicate Within(files: seq<FileRun>, n: nat)
  {
    forall k | 0 <= k < |files| :: files[k].pos + files[k].size <= n
  }

  /** One step of the second loop of `smart_defrag`: the file moves into the first span that fits. */
  function MoveFile(st: DiskState, f: FileRun): (r: DiskState)
    requires f.pos + f.size <= |st.blocks|
    ensures |r.blocks| == |st.blocks| && |r.free| == |st.free|
  {
    match FirstFit(st.free, f.start, f.size)
    case None => st
    case Some(k) =>
      var span := st.free[k];
      DiskState(Place(st.blocks, f, span.start), st.free[k := Span(span.start + f.size, span.size - f.size)])
  }

  /** The second loop of `smart_defrag`: the collected files moved one by one, the last one first. */
  function MoveAll(st: DiskState, files: seq<FileRun>): (r: DiskState)
    requires Within(files, |st.blocks|)
    ensures |r.blocks| == |st.blocks| && |r.free| == |st.free|
    decreases |files|
  {
    if files == [] then st
    else MoveAll(MoveFile(st, files[|files| - 1]), files[..|files| - 1])
  }

  /**
   * `smart_defrag`: collect the files, then try each once, the last one first, moving it whole
   * into the first free span at or left of it that holds it. `false` is the panic of the collecting
   * loop. The disk must have increasing file ids, as `parse` produces.
   */
  method SmartDefrag(disk: Disk) returns (ok: bool)
    requires Grouped(disk.blocks)
    modifies disk
    ensures ok == Fits(old(disk.blocks))
    ensures !ok ==> disk.State() == old(disk.State())
    ensures ok ==> disk.State() == MoveAll(old(disk.State()), RunsOf(old(disk.blocks)))
  {
    var r := CollectFiles(disk.blocks);
    if r.None? {
      return false;
    }
    var files := r.value;
    ghost var start := disk.State();
    var k := |files|;
    assert files[..k] == files;
    while k > 0
      invariant 0 <= k <= |files| && |disk.blocks| == |start.blocks|
      invariant MoveAll(disk.State(), files[..k]) == MoveAll(start, files)
    {
      ghost var before := disk.State();
      TryMove(disk, files[k - 1]);
      MoveAllStep(disk.State(), before, files, k);
      k := k - 1;
    }
    assert files[..0] == [];
    return true;
  }

  /** Placing `i` blocks of the run is placing `i - 1` and then writing block `i - 1`. */
  lemma PlaceStep(blocks: seq<Block>, f: FileRun, at: nat, i: nat)
    requires f.pos + i <= |blocks|
    ensures i == 0 ==> Place(blocks, f.(size := 0), at) == blocks
    ensures i > 0 ==>
      Place(blocks, f.(size := i), at) == Place(blocks, f.(size := i - 1), at)[i - 1 + f.pos := Block(at + (i - 1), f.file)]
  {
  }

  /**
   * The body of the second loop of `smart_defrag`: look for the first free span that fits, shrink
   * it from the left and write the file's blocks into its old start, one by one.
   */
  method TryMove(disk: Disk, f: FileRun)
    requires f.pos + f.size <= |disk.blocks|
    modifies disk
    ensures disk.State() == MoveFile(old(disk.State()), f)
  {
    var space := FirstFit(disk.free, f.start, f.size);
    if space.Some? {
      var span := disk.free[space.value];
      disk.free := disk.free[space.value := Span(span.start + f.size, span.size - f.size)];
      ghost var blocks0 := disk.blocks;
      PlaceStep(blocks0, f, span.start, 0);
      for i := 0 to f.size
        invariant disk.free == old(disk.free)[space.value := Span(span.start + f.size, span.size - f.size)]
        invariant disk.blocks == Place(blocks0, f.(size := i), span.start)
      {
        PlaceStep(blocks0, f, span.start, i + 1);
        disk.blocks := disk.blocks[i + f.pos := Block(span.start + i, f.file)];
      }
      assert f.(size := f.size) == f;
    }
  }

  /** Moving the first `k` files after moving file `k - 1` is moving the first `k - 1`. */
  lemma MoveAllStep(now: DiskState, before: DiskState, files: seq<FileRun>, k: nat)
    requires 0 < k <= |files| && Within(files, |before.blocks|)
    requires now == MoveFile(before, files[k - 1])
    ensures MoveAll(before, files[..k]) == MoveAll(now, files[..k - 1])
  {
    assert files[..k][..k - 1] == files[..k - 1];
  }

  /** Neighbouring blocks of the same file sit at neighbouring indices, as `parse` lays them out. */
  predicate Consecutive(blocks: seq<Block>)
  {
    forall p | 0 <= p < |blocks| :: Adjacent(blocks, p)
  }

  /** The block after position `p`, if it is of the same file, sits at the next index. */
  predicate Adjacent(blocks: seq<Block>, p: nat)
  {
    p + 1 < |blocks| && blocks[p].file == blocks[p + 1].file ==> blocks[p + 1].index == blocks[p].index + 1
  }

  /** The run's blocks sit at consecutive indices from that of its first block. */
  predicate Contiguous(blocks: seq<Block>, f: FileRun)
  {
    && f.size >= 1 && f.pos + f.size <= |blocks|
    && forall p | f.pos <= p < f.pos + f.size :: blocks[p].index == blocks[f.pos].index + (p - f.pos)
  }

  /** The run's blocks sit at consecutive indices from `f.start`, all of file `f.file`. */
  predicate Laid(blocks: seq<Block>, f: FileRun)
  {
    && f.pos + f.size <= |blocks|
    && forall p | f.pos <= p < f.pos + f.size :: blocks[p] == Block(f.start + (p - f.pos), f.file)
  }

  /** The runs follow each other in the vector without overlapping. */
  predicate Ordered(files: seq<FileRun>)
  {
    forall a, b | 0 <= a < b < |files| :: files[a].pos + files[a].size <= files[b].pos
  }

  /** Position `p` still holds a block of its original file, at an index no larger than before. */
  predicate NoRight(now: seq<Block>, orig: seq<Block>, p: nat)
  {
    p < |now| && p < |orig| && now[p].file == orig[p].file && now[p].index <= orig[p].index
  }

  /** The run's positions hold what they held originally. */
  predicate Untouched(now: seq<Block>, orig: seq<Block>, f: FileRun)
  {
    forall p | f.pos <= p < f.pos + f.size :: p < |now| && p < |orig| && now[p] == orig[p]
  }

  /**
   * Moving files that are still where they were laid out, into spans at or left of them, leaves
   * every block with its file at an index no larger than its original one.
   */
  lemma {:induction false} MoveAllNoRight(st: DiskState, files: seq<FileRun>, orig: seq<Block>)
    requires |st.blocks| == |orig| && Within(files, |orig|) && Ordered(files)
    requires forall k | 0 <= k < |files| :: Laid(orig, files[k]) && Untouched(st.blocks, orig, files[k])
    requires forall p | 0 <= p < |orig| :: NoRight(st.blocks, orig, p)
    ensures forall p | 0 <= p < |orig| :: NoRight(MoveAll(st, files).blocks, orig, p)
    decreases |files|
  {
    if files != [] {
      var m := |files| - 1;
      var f := files[m];
      var next := MoveFile(st, f);
      assert Laid(orig, f) && Untouched(st.blocks, orig, f);
      forall p | 0 <= p < |orig| ensures NoRight(next.blocks, orig, p) {
        assert NoRight(st.blocks, orig, p);
        if InRun(f, p) {
          assert orig[p] == Block(f.start + (p - f.pos), f.file);
        }
      }
      forall k | 0 <= k < m ensures Untouched(next.blocks, orig, files[k]) {
        assert Untouched(st.blocks, orig, files[k]);
        assert files[k].pos + files[k].size <= f.pos;
      }
      MoveAllNoRight(next, files[..m], orig);
    }
  }

  /** Runs apart from one another share no position. */
  predicate Disjoint(f: FileRun, g: FileRun)
  {
    f.pos + f.size <= g.pos || g.pos + g.size <= f.pos
  }

  /** A run that every moved file either is or lies apart from stays in one piece. */
  lemma {:induction false} MoveAllContiguous(st: DiskState, files: seq<FileRun>, g: FileRun)
    requires Within(files, |st.blocks|) && Contiguous(st.blocks, g)
    requires forall k | 0 <= k < |files| :: files[k] == g || Disjoint(files[k], g)
    ensures Contiguous(MoveAll(st, files).blocks, g)
    decreases |files|
  {
    if files != [] {
      var m := |files| - 1;
      var next := MoveFile(st, files[m]);
      assert Contiguous(next.blocks, g);
      MoveAllContiguous(next, files[..m], g);
    }
  }

  /** Free spans only shrink from the left: each keeps its end and its start never decreases. */
  lemma {:induction false} MoveAllSpans(st: DiskState, files: seq<FileRun>)
    requires Within(files, |st.blocks|)
    ensures forall k | 0 <= k < |st.free| ::
      && MoveAll(st, files).free[k].start + MoveAll(st, files).free[k].size == st.free[k].start + st.free[k].size
      && MoveAll(st, files).free[k].start >= st.free[k].start
    decreases |files|
  {
    if files != [] {
      var m := |files| - 1;
      MoveAllSpans(MoveFile(st, files[m]), files[..m]);
    }
  }

  /** The runs of a partition follow each other without overlapping. */
  lemma PartitionOrdered(blocks: seq<Block>, runs: seq<FileRun>)
    requires Partition(blocks, runs)
    ensures Ordered(runs)
  {
    forall b | 0 <= b < |runs| ensures forall a | 0 <= a < b :: runs[a].pos + runs[a].size <= runs[b].pos {
      OrderedBefore(blocks, runs, b);
    }
  }

  /** Every run before run `b` ends at or before `b` starts. */
  lemma {:induction false} OrderedBefore(blocks: seq<Block>, runs: seq<FileRun>, b: nat)
    requires Partition(blocks, runs) && b < |runs|
    ensures forall a | 0 <= a < b :: runs[a].pos + runs[a].size <= runs[b].pos
  {
    if b > 0 {
      OrderedBefore(blocks, runs, b - 1);
      assert RunAt(blocks, runs, b - 1);
    }
  }

  /** With consecutive indices within each file, every run is laid out from its start. */
  lemma RunLaid(blocks: seq<Block>, runs: seq<FileRun>, k: nat)
    requires Partition(blocks, runs) && Consecutive(blocks) && k < |runs|
    ensures Laid(blocks, runs[k]) && Contiguous(blocks, runs[k])
  {
    var f := runs[k];
    assert RunAt(blocks, runs, k);
    forall p | f.pos <= p < f.pos + f.size ensures blocks[p] == Block(f.start + (p - f.pos), f.file) {
      LaidAt(blocks, runs, k, p);
    }
  }

  /** Induction along one run: the block at `p` sits `p - pos` after the run's start. */
  lemma {:induction false} LaidAt(blocks: seq<Block>, runs: seq<FileRun>, k: nat, p: nat)
    requires Partition(blocks, runs) && Consecutive(blocks) && k < |runs|
    requires runs[k].pos <= p < runs[k].pos + runs[k].size
    ensures p < |blocks| && blocks[p].index == runs[k].start + (p - runs[k].pos)
    decreases p
  {
    assert RunAt(blocks, runs, k);
    if p > runs[k].pos {
      LaidAt(blocks, runs, k, p - 1);
      assert Adjacent(blocks, p - 1);
    }
  }

  /**
   * What `smart_defrag` does to a disk laid out by `parse`: every block keeps its file and never
   * moves right, every file stays in one piece, every free span keeps its end and only shrinks from
   * the left, and so the checksum never grows.
   */
  lemma SmartDefragShape(st: DiskState)
    requires Consecutive(st.blocks)
    ensures var runs := RunsOf(st.blocks);
      var r := MoveAll(st, runs);
      && |r.blocks| == |st.blocks| && |r.free| == |st.free|
      && (forall p | 0 <= p < |st.blocks| :: NoRight(r.blocks, st.blocks, p))
      && (forall k | 0 <= k < |runs| :: Contiguous(r.blocks, runs[k]))
      && (forall k | 0 <= k < |st.free| ::
            r.free[k].start + r.free[k].size == st.free[k].start + st.free[k].size && r.free[k].start >= st.free[k].start)
      && Checksum(r.blocks) <= Checksum(st.blocks)
  {
    var runs := RunsOf(st.blocks);
    var r := MoveAll(st, runs);
    RunsPartition(st.blocks);
    PartitionOrdered(st.blocks, runs);
    forall k | 0 <= k < |runs| ensures Laid(st.blocks, runs[k]) && Untouched(st.blocks, st.blocks, runs[k]) {
      RunLaid(st.blocks, runs, k);
    }
    MoveAllNoRight(st, runs, st.blocks);
    forall k | 0 <= k < |runs| ensures Contiguous(r.blocks, runs[k]) {
      RunLaid(st.blocks, runs, k);
      forall j | 0 <= j < |runs| ensures runs[j] == runs[k] || Disjoint(runs[j], runs[k]) {
        if j < k {
          assert runs[j].pos + runs[j].size <= runs[k].pos;
        } else if k < j {
          assert runs[k].pos + runs[k].size <= runs[j].pos;
        }
      }
      MoveAllContiguous(st, runs, runs[k]);
    }
    MoveAllSpans(st, runs);
    forall p | 0 <= p < |st.blocks| ensures r.blocks[p].file == st.blocks[p].file && r.blocks[p].index <= st.blocks[p].index {
      assert NoRight(r.blocks, st.blocks, p);
    }
    ChecksumShrinks(r.blocks, st.blocks);
  }

  // ---------------------------------------------------------------------------------------------
  // parse: the disk map as bytes, read two at a time.

  /** `b'0'`. */
  const Zero: Byte := 48

  /** `size` blocks of file `id` from index `index` on. */
  function FileBlocks(index: nat, size: nat, id: nat): (r: seq<Block>)
    ensures |r| == size
    ensures forall j | 0 <= j < size :: r[j] == Block(index + j, id)
  {
    seq(size, j requires 0 <= j < size => Block(index + j, id))
  }

  /**
   * The layout of the disk map from byte `c` on, the next block at `index` and the next file
   * `id`: each pair of bytes is a file length and, if present and not below `'0'`, a free length.
   * `None` when a file length byte lies below `'0'`, where the subtraction panics.
   */
  function LayoutFrom(data: seq<Byte>, c: nat, index: nat, id: nat): (r: Option<DiskState>)
    decreases |data| - c
  {
    if c >= |data| then Some(DiskState([], []))
    else if data[c] < Zero then None
    else
      var size := data[c] - Zero;
      var hasFree := c + 1 < |data| && data[c + 1] >= Zero;
      var gap := if hasFree then data[c + 1] - Zero else 0;
      var spans := if hasFree then [Span(index + size, gap)] else [];
      match LayoutFrom(data, c + 2, index + size + gap, id + 1)
      case None => None
      case Some(rest) => Some(DiskState(FileBlocks(index, size, id) + rest.blocks, spans + rest.free))
  }

  /** What is laid out so far followed by what the rest of the map lays out. */
  function Append(st: DiskState, rest: Option<DiskState>): Option<DiskState>
  {
    match rest
    case None => None
    case Some(r) => Some(DiskState(st.blocks + r.blocks, st.free + r.free))
  }

  /**
   * `parse`: walk the map two bytes at a time, pushing a block per unit of file length and a free
   * span when the second byte is there and not below `'0'`. `None` is the panic on a file length
   * byte below `'0'`.
   */
  method Parse(data: seq<Byte>) returns (r: Option<Disk>)
    ensures r.None? <==> LayoutFrom(data, 0, 0, 0).None?
    ensures r.Some? ==> fresh(r.value) && r.value.State() == LayoutFrom(data, 0, 0, 0).value
  {
    var curIndex: nat := 0;
    var curId: nat := 0;
    var disk := new Disk([], []);
    var c: nat := 0;
    if LayoutFrom(data, 0, 0, 0).Some? {
      var st := LayoutFrom(data, 0, 0, 0).value;
      assert [] + st.blocks == st.blocks && [] + st.free == st.free;
    }
    while c < |data|
      invariant fresh(disk)
      invariant LayoutFrom(data, 0, 0, 0) == Append(disk.State(), LayoutFrom(data, c, curIndex, curId))
    {
      if data[c] < Zero {
        return None;
      }
      var fileSize := data[c] - Zero;
      ghost var before := disk.State();
      ghost var start := curIndex;
      for j := 0 to fileSize
        invariant disk.blocks == before.blocks + FileBlocks(start, j, curId)
        invariant disk.free == before.free && curIndex == start + j
      {
        disk.blocks := disk.blocks + [Block(curIndex, curId)];
        curIndex := curIndex + 1;
      }
      curId := curId + 1;
      if c + 1 < |data| && data[c + 1] >= Zero {
        var freeSpace := data[c + 1] - Zero;
        disk.free := disk.free + [Span(curIndex, freeSpace)];
        curIndex := curIndex + freeSpace;
      }
      LayoutStep(data, c, start, curId - 1, before, disk.State());
      c := c + 2;
    }
    return Some(disk);
  }

  /** One pair of bytes: what the loop has laid out grows by this chunk's file and free span. */
  lemma LayoutStep(data: seq<Byte>, c: nat, index: nat, id: nat, before: DiskState, after: DiskState)
    requires c < |data| && data[c] >= Zero
    requires
      var size := data[c] - Zero;
      var hasFree := c + 1 < |data| && data[c + 1] >= Zero;
      && after.blocks == before.blocks + FileBlocks(index, size, id)
      && after.free == before.free + (if hasFree then [Span(index + size, data[c + 1] - Zero)] else [])
    ensures
      var size := data[c] - Zero;
      var hasFree := c + 1 < |data| && data[c + 1] >= Zero;
      var gap := if hasFree then data[c + 1] - Zero else 0;
      Append(before, LayoutFrom(data, c, index, id)) == Append(after, LayoutFrom(data, c + 2, index + size + gap, id + 1))
  {
    var size := data[c] - Zero;
    var hasFree := c + 1 < |data| && data[c + 1] >= Zero;
    var gap := if hasFree then data[c + 1] - Zero else 0;
    var spans := if hasFree then [Span(index + size, gap)] else [];
    match LayoutFrom(data, c + 2, index + size + gap, id + 1)
    case None =>
    case Some(rest) =>
      assert before.blocks + (FileBlocks(index, size, id) + rest.blocks) == after.blocks + rest.blocks;
      assert before.free + (spans + rest.free) == after.free + rest.free;
  }

  /** Every block at or after `index` and of file `id` or later; every span starting at or after `index`. */
  predicate From(st: DiskState, index: nat, id: nat)
  {
    && (forall p | 0 <= p < |st.blocks| :: st.blocks[p].index >= index && st.blocks[p].file >= id)
    && (forall k | 0 <= k < |st.free| :: st.free[k].start >= index)
  }

  /** No block lies inside free span `k`. */
  predicate SpanClear(st: DiskState, k: nat)
  {
    k < |st.free| ==> forall p | 0 <= p < |st.blocks| ::
      !(st.free[k].start <= st.blocks[p].index < st.free[k].start + st.free[k].size)
  }

  /**
   * What `parse` lays out: blocks in increasing index order, files in increasing id order, each
   * file at consecutive indices, and no block inside a free span.
   */
  predicate WellLaid(st: DiskState)
  {
    && StrictlySorted(st.blocks) && Grouped(st.blocks) && Consecutive(st.blocks)
    && forall k | 0 <= k < |st.free| :: SpanClear(st, k)
  }

  /** The layout of the rest of the map lies after `index` and is well laid out. */
  lemma {:induction false} LayoutShape(data: seq<Byte>, c: nat, index: nat, id: nat)
    requires LayoutFrom(data, c, index, id).Some?
    ensures From(LayoutFrom(data, c, index, id).value, index, id)
    ensures WellLaid(LayoutFrom(data, c, index, id).value)
    decreases |data| - c
  {
    if c < |data| {
      var size := data[c] - Zero;
      var hasFree := c + 1 < |data| && data[c + 1] >= Zero;
      var gap := if hasFree then data[c + 1] - Zero else 0;
      var spans := if hasFree then [Span(index + size, gap)] else [];
      var next := index + size + gap;
      var rest := LayoutFrom(data, c + 2, next, id + 1).value;
      LayoutShape(data, c + 2, next, id + 1);
      var files := FileBlocks(index, size, id);
      var st := DiskState(files + rest.blocks, spans + rest.free);
      assert LayoutFrom(data, c, index, id).value == st;
      ChunkSorted(files, rest.blocks, index, id);
      ChunkClear(DiskState(files, spans), rest, index, size, gap, id, next);
    }
  }

  /** A file's blocks, then blocks after them of later files: the order properties carry over. */
  lemma ChunkSorted(files: seq<Block>, rest: seq<Block>, index: nat, id: nat)
    requires forall j | 0 <= j < |files| :: files[j] == Block(index + j, id)
    requires forall p | 0 <= p < |rest| :: rest[p].index >= index + |files| && rest[p].file >= id + 1
    requires StrictlySorted(rest) && Grouped(rest) && Consecutive(rest)
    ensures StrictlySorted(files + rest) && Grouped(files + rest) && Consecutive(files + rest)
  {
    var all := files + rest;
    var n := |files|;
    forall p | 0 <= p < |all| ensures InOrder(all, p) && Adjacent(all, p) {
      if p >= n {
        assert InOrder(rest, p - n) && Adjacent(rest, p - n);
      }
    }
  }

  /** This chunk's span and the rest's spans are clear of this chunk's and the rest's blocks. */
  lemma ChunkClear(chunk: DiskState, rest: DiskState, index: nat, size: nat, gap: nat, id: nat, next: nat)
    requires chunk.blocks == FileBlocks(index, size, id)
    requires chunk.free == [] || chunk.free == [Span(index + size, gap)]
    requires next == index + size + gap
    requires From(rest, next, id + 1) && forall k | 0 <= k < |rest.free| :: SpanClear(rest, k)
    ensures forall k | 0 <= k < |chunk.free + rest.free| ::
      SpanClear(DiskState(chunk.blocks + rest.blocks, chunk.free + rest.free), k)
    ensures From(DiskState(chunk.blocks + rest.blocks, chunk.free + rest.free), index, id)
  {
    var st := DiskState(chunk.blocks + rest.blocks, chunk.free + rest.free);
    var m := |chunk.free|;
    var n := size;
    forall k | 0 <= k < |st.free| ensures SpanClear(st, k) {
      if k >= m {
        assert SpanClear(rest, k - m);
        forall p | 0 <= p < |st.blocks| ensures !(st.free[k].start <= st.blocks[p].index < st.free[k].start + st.free[k].size) {
          if p >= n {
            assert st.blocks[p] == rest.blocks[p - n];
          }
        }
      }
    }
  }

  /**
   * What `parse` produces meets what `defrag` and `smart_defrag` expect: sorted, grouped,
   * consecutive blocks, and a first block at index 0 when the first file is not empty.
   */
  lemma ParseReady(data: seq<Byte>)
    requires LayoutFrom(data, 0, 0, 0).Some?
    ensures WellLaid(LayoutFrom(data, 0, 0, 0).value)
    ensures |data| >= 1 && data[0] > Zero ==>
      |LayoutFrom(data, 0, 0, 0).value.blocks| >= 1 && LayoutFrom(data, 0, 0, 0).value.blocks[0] == Block(0, 0)
  {
    LayoutShape(data, 0, 0, 0);
    if |data| >= 1 && data[0] > Zero {
      var rest := LayoutFrom(data, 2, 0 + (data[0] - Zero) + (if 1 < |data| && data[1] >= Zero then data[1] - Zero else 0), 1);
      assert LayoutFrom(data, 0, 0, 0).value.blocks == FileBlocks(0, data[0] - Zero, 0) + rest.value.blocks;
    }
  }

  /** The map "12345": file 0 at 0, file 1 at 3..5, file 2 at 10..14, free runs at 1 and 6. */
  lemma ParseSmallExample()
    ensures LayoutFrom([49, 50, 51, 52, 53], 0, 0, 0) == Some(DiskState(
      [Block(0, 0), Block(3, 1), Block(4, 1), Block(5, 1),
       Block(10, 2), Block(11, 2), Block(12, 2), Block(13, 2), Block(14, 2)],
      [Span(1, 2), Span(6, 4)]))
  {
    var data: seq<Byte> := [49, 50, 51, 52, 53];
    var f := [Block(3, 1), Block(4, 1), Block(5, 1),
              Block(10, 2), Block(11, 2), Block(12, 2), Block(13, 2), Block(14, 2)];
    SmallExampleMiddle();
    assert data[0] == 49 && data[1] == 50;
    assert FileBlocks(0, 1, 0) == [Block(0, 0)];
    assert LayoutFrom(data, 0, 0, 0) == Some(DiskState(FileBlocks(0, 1, 0) + f, [Span(1, 2)] + [Span(6, 4)]));
    assert [Block(0, 0)] + f == [Block(0, 0), Block(3, 1), Block(4, 1), Block(5, 1),
       Block(10, 2), Block(11, 2), Block(12, 2), Block(13, 2), Block(14, 2)];
    assert [Span(1, 2)] + [Span(6, 4)] == [Span(1, 2), Span(6, 4)];
  }

  /** The last two digits of "12345": file 1 then file 2. */
  lemma SmallExampleMiddle()
    ensures LayoutFrom([49, 50, 51, 52, 53], 2, 3, 1) == Some(DiskState(
      [Block(3, 1), Block(4, 1), Block(5, 1),
       Block(10, 2), Block(11, 2), Block(12, 2), Block(13, 2), Block(14, 2)],
      [Span(6, 4)]))
  {
    var data: seq<Byte> := [49, 50, 51, 52, 53];
    var f1 := [Block(3, 1), Block(4, 1), Block(5, 1)];
    var f2 := [Block(10, 2), Block(11, 2), Block(12, 2), Block(13, 2), Block(14, 2)];
    SmallExampleLast();
    assert data[2] == 51 && data[3] == 52;
    assert FileBlocks(3, 3, 1) == f1;
    assert [Span(6, 4)] + [] == [Span(6, 4)];
    assert LayoutFrom(data, 2, 3, 1) == Some(DiskState(FileBlocks(3, 3, 1) + f2, [Span(6, 4)] + []));
    assert f1 + f2 == [Block(3, 1), Block(4, 1), Block(5, 1),
       Block(10, 2), Block(11, 2), Block(12, 2), Block(13, 2), Block(14, 2)];
  }

  /** The last digit of "12345": file 2 with no free run after it. */
  lemma SmallExampleLast()
    ensures LayoutFrom([49, 50, 51, 52, 53], 4, 10, 2) == Some(DiskState(
      [Block(10, 2), Block(11, 2), Block(12, 2), Block(13, 2), Block(14, 2)], []))
  {
    var data: seq<Byte> := [49, 50, 51, 52, 53];
    var f2 := [Block(10, 2), Block(11, 2), Block(12, 2), Block(13, 2), Block(14, 2)];
    assert data[4] == 53;
    assert LayoutFrom(data, 6, 15, 3) == Some(DiskState([], []));
    assert FileBlocks(10, 5, 2) == f2;
    assert FileBlocks(10, 5, 2) + [] == f2;
    var none: seq<Span> := [];
    assert none + none == [];
    assert LayoutFrom(data, 4, 10, 2) == Some(DiskState(FileBlocks(10, 5, 2) + [], none + none));
  }
}
