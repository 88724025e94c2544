/** Files whose truncation ends badly (pmfs/inode.c, pmfs/xip.c): one for each outcome other than
    a fitted tree, and one that loses a block, each from an empty file by allocations and
    truncations. */
module PmfsInodeRuns {
  import opened PmfsTree
  import opened PmfsBTree
  import opened PmfsShrink
  import opened PmfsInode

  /** A cut from file block `a` to `b`. */
  lemma AlignedCut(t: Tree, h: nat, lostData: nat, a: nat, b: nat)
    requires Shape(t, h) && t != Nil && a <= b < Span(h)
    ensures !Idle(t, h, a * BLOCK, (b + 1) * BLOCK, false)
    ensures CutOf(t, h, lostData, a * BLOCK, (b + 1) * BLOCK, false) == Job(t, h, lostData, a * BLOCK, a, b)
  {
  }

  lemma Spans()
    ensures Span(0) == 1 && Span(1) == 512 && Span(2) == 262144
  {
    assert Span(1) == FANOUT * Span(0);
    assert Span(2) == FANOUT * Span(1);
  }

  lemma Heights()
    ensures HeightFor(0) == 0 && HeightFor(1) == 1 && HeightFor(4) == 1 && HeightFor(5) == 1 && HeightFor(512) == 2
  {
    Spans();
    HeightLeast(1, 1);
    HeightLeast(1, 0);
    HeightLeast(4, 1);
    HeightLeast(4, 0);
    HeightLeast(5, 1);
    HeightLeast(5, 0);
    HeightLeast(512, 2);
    HeightLeast(512, 1);
  }

  lemma NothingThere()
    ensures Shape(Nil, 0) && forall n: nat :: MapAt(Nil, 0, n) == 0
  {
    NilMap(0);
  }

  // ------------------------------------------------------------- the BUG_ON

  /** A file written first at file block `n`, 512 or beyond, and then truncated to that block:
      raising the tree from nothing has put an empty meta block before it, and the BUG_ON of
      the height reduction fires. */
  method SparseFirstWrite(supply: seq<nat>, n: nat) returns (r: Outcome)
    requires 0 !in supply && Once(multiset(supply)) && |supply| > 6 && n >= FANOUT && HeightFor(n) <= 3
    ensures r == RootLeft
  {
    hide All, Once, Shape, DataOf, MetaOf, MapAt, Span, CutOf, Job.Ends, HeightFor, FirstBlock, LastBlock;
    var ino := new Inode(supply);
    NothingThere();
    assert forall m: nat :: ino.BlockAt(m) == 0;
    var ok := ino.AllocateBlocks(n, 1);
    SparseHeight(n);
    ghost var t, h := ino.root, ino.height;
    forall m: nat | m != n ensures MapAt(t, h, m) == 0 { assert ino.BlockAt(m) == 0; }
    MetaBefore(t, h, n);
    r := ino.Truncate(n * BLOCK, (n + 1) * BLOCK, false);
    EndsInBug(CutOf(t, h, 0, n * BLOCK, (n + 1) * BLOCK, false), r, ino.root, ino.height, ino.lost == multiset{},
        ino.lostData == 0);
  }

  lemma EndsInBug(c: Job, r: Outcome, t: Tree, h: nat, nothingLost: bool, noDataLost: bool)
    requires c.OK() && c.Ends(r, t, h, nothingLost, noDataLost) && c.Zero() && !c.Gone()
    ensures r == RootLeft
  {
  }

  lemma SparseHeight(n: nat)
    requires n >= FANOUT
    ensures HeightFor(n) > 1 && n < Span(HeightFor(n)) && n >= Span(HeightFor(n) - 1)
  {
    HeightLeast(n, 1);
    assert Span(1) == FANOUT * Span(0);
  }

  lemma MetaBefore(t: Tree, h: nat, n: nat)
    requires Shape(t, h) && h > 1 && t.Meta? && |t.kids| == FANOUT && t.kids[0].Meta? && Span(h - 1) <= n < Span(h)
    requires forall m: nat | m != n :: MapAt(t, h, m) == 0
    ensures !Idle(t, h, n * BLOCK, (n + 1) * BLOCK, false)
    ensures var c := CutOf(t, h, 0, n * BLOCK, (n + 1) * BLOCK, false); c.Zero() && !c.Gone()
  {
    hide Idx, Off, After, CutOf;
    AlignedCut(t, h, 0, n, n);
    FirstChild(n, h);
    BeforeMeta(t, h, n);
  }

  /** A write of two blocks into an empty file whose copy faults in the second: both blocks are
      allocated, the file ends in the first. Truncating it to 0 leaves the second, and the BUG_ON
      of the height reduction fires although nothing lies before the cut. */
  method FaultedWrite(supply: seq<nat>) returns (r: Outcome)
    requires 0 !in supply && Once(multiset(supply)) && |supply| > 9
    ensures r == RootLeft
  {
    hide All, Once, Shape, DataOf, MetaOf, MapAt, Span, CutOf, Job.Ends, HeightFor, FirstBlock, LastBlock;
    var ino := new Inode(supply);
    Heights();
    var ok := ino.AllocateBlocks(0, 2);
    ghost var t, h := ino.root, ino.height;
    assert ino.BlockAt(1) != 0;
    BlockAfter(t, h);
    r := ino.Truncate(0, BLOCK, false);
    EndsInBug(CutOf(t, h, 0, 0, BLOCK, false), r, ino.root, ino.height, ino.lost == multiset{}, ino.lostData == 0);
  }

  lemma BlockAfter(t: Tree, h: nat)
    requires Shape(t, h) && t != Nil && h == 1 && MapAt(t, h, 1) != 0
    ensures !Idle(t, h, 0, BLOCK, false) && var c := CutOf(t, h, 0, 0, BLOCK, false); c.Zero() && !c.Gone()
  {
    hide After, Before, Look, CutOf;
    Spans();
    AlignedCut(t, h, 0, 0, 0);
    if After(t, h, 0) { AfterMap(t, h, 0, 1); }
  }

  // ------------------------------------------------------- cuts from file block 1

  /** A write of file blocks `from` to 512 that faults after block 0, and a truncation of the file,
      taken to end with block `last`, to one block. */
  method WriteAndTruncate(supply: seq<nat>, from: nat, last: nat) returns (r: Outcome, ghost ino: Inode)
    requires 0 !in supply && Once(multiset(supply)) && |supply| > 1542 && from <= 1 <= last < 512
    ensures r == if from == 0 then Fitted else if last == 511 then NullRead else NullLeft
    ensures r != NullRead ==> ino.lost != multiset{}
  {
    hide All, Once, Shape, DataOf, MetaOf, MapAt, Span, CutOf, Job.Ends, HeightFor, FirstBlock, LastBlock;
    var file := new Inode(supply);
    NothingThere();
    Heights();
    assert forall m: nat :: file.BlockAt(m) == 0;
    var ok := file.AllocateBlocks(from, 513 - from);
    ghost var t, h := file.root, file.height;
    forall n: nat ensures MapAt(t, h, n) != 0 <==> from <= n <= 512 { assert MapAt(t, h, n) == file.BlockAt(n); }
    CutToOne(t, from, last);
    r := file.Truncate(BLOCK, (last + 1) * BLOCK, false);
    EndsAt(CutOf(t, h, 0, BLOCK, (last + 1) * BLOCK, false), from, last, r, file.root, file.height,
        file.lost == multiset{}, file.lostData == 0);
    ino := file;
  }

  lemma CutToOne(t: Tree, from: nat, last: nat)
    requires Shape(t, 2) && from <= 1 <= last < 512 && forall n: nat :: MapAt(t, 2, n) != 0 <==> from <= n <= 512
    ensures t != Nil && !Idle(t, 2, BLOCK, (last + 1) * BLOCK, false)
    ensures var c := CutOf(t, 2, 0, BLOCK, (last + 1) * BLOCK, false);
            && !c.Zero() && c.NewHeight() == 0 && c.h == 2 && !c.NothingDropped()
            && (c.LeftGone(1) <==> from == 1 && last == 511) && (c.LeftGone(0) <==> from == 1)
  {
    hide After, Before, Look, CutOf, Job.LeftGone;
    Spans();
    assert MapAt(t, 2, 512) != 0;
    if t == Nil { LookNil(2, 512); }
    AlignedCut(t, 2, 0, 1, last);
    var c := CutOf(t, 2, 0, BLOCK, (last + 1) * BLOCK, false);
    FitToIs(BLOCK, false, 2);
    if After(t, 2, last) { AfterMap(t, 2, last, 512); }
    LeftGoneOne(c, from, last);
    LeftGoneZero(c, from);
  }

  lemma LeftGoneZero(c: Job, from: nat)
    requires c.OK() && c.h == 2 && c.first == 1 && from <= 1
    requires forall n: nat :: MapAt(c.t, 2, n) != 0 <==> from <= n <= 512
    ensures c.LeftGone(0) <==> from == 1
  {
    hide LeftMost, Before, After;
    LeftMap(c.t, 2, 0);
    var l := LeftMost(c.t, 2, 0);
    assert MapAt(l, 0, 0) == MapAt(c.t, 2, 0);
  }

  lemma LeftGoneOne(c: Job, from: nat, last: nat)
    requires c.OK() && c.h == 2 && c.first == 1 && c.last == last && from <= 1 <= last < 512
    requires forall n: nat :: MapAt(c.t, 2, n) != 0 <==> from <= n <= 512
    ensures c.LeftGone(1) <==> from == 1 && last == 511
  {
    hide LeftMost, Before, After, Look;
    Spans();
    LeftMap(c.t, 2, 1);
    var l := LeftMost(c.t, 2, 1);
    assert MapAt(l, 1, 511) == MapAt(c.t, 2, 511) != 0 && MapAt(l, 1, 0) == MapAt(c.t, 2, 0);
    assert Min(last, Span(1) - 1) == last;
    if last == 511 { AfterLast(l, 1); } else if After(l, 1, last) { AfterMap(l, 1, last, 511); }
    BeforeOne(l, 1);
  }

  /** On the lowest level, nothing before block `n` means that no block before it is mapped. */
  lemma BeforeOne(t: Tree, n: nat)
    requires Shape(t, 1) && n < Span(1)
    ensures Before(t, 1, n) <==> forall m: nat | m < n :: MapAt(t, 1, m) == 0
  {
    hide Look;
    Spans();
    if t.Meta? {
      forall m: nat | m < 512 ensures MapAt(t, 1, m) == 0 <==> t.kids[m] == Nil { OneLevel(t, m); }
      OneLevel(t, n);
      BeforeMeta(t, 1, n);
    } else {
      forall m: nat | m < n ensures MapAt(t, 1, m) == 0 { LookNil(1, m); }
    }
  }

  lemma OneLevel(t: Tree, m: nat)
    requires t.Meta? && Shape(t, 1) && m < Span(1)
    ensures |t.kids| == 512 && m < 512 && Idx(m, 1) == m && Off(m, 1) == 0
    ensures MapAt(t, 1, m) == 0 <==> t.kids[m] == Nil
  {
    Spans();
    IdxOffOf(m, 0, 1);
    LookMeta(t, 1, m);
  }

  lemma EndsAt(c: Job, from: nat, last: nat, r: Outcome, t: Tree, h: nat, nothingLost: bool, noDataLost: bool)
    requires c.OK() && c.Ends(r, t, h, nothingLost, noDataLost) && !c.Zero() && c.NewHeight() == 0 && c.h == 2
    requires !c.NothingDropped()
    requires from <= 1 && (c.LeftGone(1) <==> from == 1 && last == 511) && (c.LeftGone(0) <==> from == 1)
    ensures r == if from == 0 then Fitted else if last == 511 then NullRead else NullLeft
    ensures r != NullRead ==> !nothingLost
  {
    hide Job.Zero, Job.LeftGone, Job.NothingDropped, Job.NewHeight, Job.Gone;
  }

  // ------------------------------------------------------------- a stale root

  method TwoBlocks(supply: seq<nat>) returns (ino: Inode)
    requires 0 !in supply && Once(multiset(supply)) && |supply| > 20
    ensures fresh(ino) && ino.Valid() && ino.height == 2 && ino.lostData == 0
    ensures forall n: nat :: ino.BlockAt(n) != 0 <==> n == 5 || n == 512
  {
    hide All, Once, Shape, DataOf, MetaOf, MapAt, Span, HeightFor;
    ino := new Inode(supply);
    NothingThere();
    Heights();
    assert forall n: nat :: ino.BlockAt(n) == 0;
    var ok := ino.AllocateBlocks(5, 1);
    assert forall n: nat :: ino.BlockAt(n) != 0 <==> n == 5;
    ok := ino.AllocateBlocks(512, 1);
  }

  /** The file, taken to end with block 6, is truncated to six blocks: block 512 is dropped and
      still counted. */
  method DroppedBlock(supply: seq<nat>) returns (r: Outcome, ino: Inode)
    requires 0 !in supply && Once(multiset(supply)) && |supply| > 20
    ensures r == Fitted && fresh(ino) && ino.Valid() && ino.height == 1 && ino.lostData > 0
    ensures forall n: nat :: ino.BlockAt(n) != 0 <==> n == 5
  {
    hide All, Once, Shape, DataOf, MetaOf, MapAt, Span, CutOf, Job.Ends, FirstBlock, LastBlock;
    ino := TwoBlocks(supply);
    ghost var t := ino.root;
    forall n: nat ensures MapAt(t, 2, n) != 0 <==> n == 5 || n == 512 { assert MapAt(t, 2, n) == ino.BlockAt(n); }
    CutSix(t);
    ghost var lost := ino.lost;
    r := ino.Truncate(6 * BLOCK, 7 * BLOCK, false);
    SixEnds(CutOf(t, 2, 0, 6 * BLOCK, 7 * BLOCK, false), r, ino.root, ino.height, ino.lost == lost, ino.lostData == 0);
  }

  /** Truncating that file to five blocks leaves nothing of the tree, and the inode keeps the
      pointer to the root that was freed. */
  method StaleTruncate(supply: seq<nat>) returns (r: Outcome)
    requires 0 !in supply && Once(multiset(supply)) && |supply| > 20
    ensures r == StaleRoot
  {
    hide All, Once, Shape, DataOf, MetaOf, MapAt, Span, CutOf, Job.Ends, FirstBlock, LastBlock;
    var ino;
    r, ino := DroppedBlock(supply);
    ghost var t, lost, lostData := ino.root, ino.lost, ino.lostData;
    forall n: nat ensures MapAt(t, 1, n) != 0 <==> n == 5 { assert MapAt(t, 1, n) == ino.BlockAt(n); }
    CutFive(t, lostData);
    r := ino.Truncate(5 * BLOCK, 6 * BLOCK, false);
    EndsStale(CutOf(t, 1, lostData, 5 * BLOCK, 6 * BLOCK, false), r, ino.root, ino.height, ino.lost == lost,
              ino.lostData == lostData);
  }

  lemma CutSix(t: Tree)
    requires Shape(t, 2) && forall n: nat :: MapAt(t, 2, n) != 0 <==> n == 5 || n == 512
    ensures t != Nil && !Idle(t, 2, 6 * BLOCK, 7 * BLOCK, false)
    ensures var c := CutOf(t, 2, 0, 6 * BLOCK, 7 * BLOCK, false);
            && c == Job(t, 2, 0, 6 * BLOCK, 6, 6) && !c.Zero() && c.NewHeight() == 1 && !c.NoDataDropped()
            && !c.LeftGone(2) && !c.LeftGone(1)
  {
    hide After, Before, Look, CutOf;
    Spans();
    Heights();
    assert MapAt(t, 2, 512) != 0 && MapAt(t, 2, 5) != 0;
    if t == Nil { LookNil(2, 512); }
    AlignedCut(t, 2, 0, 6, 6);
    FitToIs(6 * BLOCK, false, 2);
    if After(t, 2, 6) { AfterMap(t, 2, 6, 512); }
    LeftMap(t, 2, 1);
    var l := LeftMost(t, 2, 1);
    assert MapAt(l, 1, 5) == MapAt(t, 2, 5);
    BeforeOne(l, 6);
  }

  lemma SixEnds(c: Job, r: Outcome, t: Tree, h: nat, nothingLost: bool, noDataLost: bool)
    requires c.OK() && c.Ends(r, t, h, nothingLost, noDataLost) && c.h == 2 && c.first == 6 && c.last == 6
    requires !c.Zero() && c.NewHeight() == 1 && !c.NoDataDropped() && !c.LeftGone(2) && !c.LeftGone(1)
    requires forall n: nat :: MapAt(c.t, 2, n) != 0 <==> n == 5 || n == 512
    ensures r == Fitted && !noDataLost && h == 1 && Shape(t, 1) && forall n: nat :: MapAt(t, 1, n) != 0 <==> n == 5
  {
    hide Job.Zero, Job.LeftGone, Job.NothingDropped, Job.NewHeight, Job.Gone, Job.NoDataDropped;
    Spans();
  }

  lemma CutFive(t: Tree, lostData: nat)
    requires Shape(t, 1) && lostData > 0 && forall n: nat :: MapAt(t, 1, n) != 0 <==> n == 5
    ensures t != Nil && !Idle(t, 1, 5 * BLOCK, 6 * BLOCK, false)
    ensures var c := CutOf(t, 1, lostData, 5 * BLOCK, 6 * BLOCK, false);
            c.h == 1 && !c.Zero() && c.NewHeight() == 1 && c.Gone()
  {
    hide After, Before, Look, CutOf;
    Spans();
    Heights();
    assert MapAt(t, 1, 5) != 0;
    if t == Nil { LookNil(1, 5); }
    AlignedCut(t, 1, lostData, 5, 5);
    FitToIs(5 * BLOCK, false, 1);
    BeforeOne(t, 5);
    AfterOne(t, 5);
  }

  lemma AfterOne(t: Tree, n: nat)
    requires Shape(t, 1) && t.Meta? && n < Span(1) && forall m: nat | m > n :: MapAt(t, 1, m) == 0
    ensures After(t, 1, n)
  {
    Spans();
    OneLevel(t, n);
    forall m: nat | n < m < 512 ensures t.kids[m] == Nil { OneLevel(t, m); }
    AfterMeta(t, 1, n);
  }

  lemma EndsStale(c: Job, r: Outcome, t: Tree, h: nat, nothingLost: bool, noDataLost: bool)
    requires c.OK() && c.Ends(r, t, h, nothingLost, noDataLost) && c.h == 1 && !c.Zero() && c.NewHeight() == 1
    requires c.Gone()
    ensures r == StaleRoot
  {
  }
}
