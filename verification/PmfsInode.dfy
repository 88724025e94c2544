/** The block map of a PMFS inode (pmfs/inode.c): allocation of a range of file blocks,
    truncation, and the tree height that follows. Data blocks are 4 KB. */
module PmfsInode {
  import opened Division
  import opened PmfsTree
  import opened PmfsBTree
  import opened PmfsGrow
  import opened PmfsShrink

  /** A tree as a map over all file blocks. */
  ghost function MapAt(t: Tree, h: nat, n: nat): nat
    requires Shape(t, h)
  {
    if n < Span(h) then Look(t, h, n) else 0
  }

  // ----------------------------------------------------------------- one level

  function Raised(b: nat, t: Tree): Tree { Meta(b, [t] + seq(FANOUT - 1, _ => Nil)) }

  /** A new root over the old one: every file block keeps its block, the new ones have none. */
  lemma RaisedMap(b: nat, t: Tree, h: nat)
    requires Shape(t, h) && b != 0
    ensures Shape(Raised(b, t), h + 1) && (forall n: nat :: MapAt(Raised(b, t), h + 1, n) == MapAt(t, h, n))
  {
    hide Idx, Off, Look;
    var r := Raised(b, t);
    forall n: nat ensures MapAt(r, h + 1, n) == MapAt(t, h, n) {
      if n < Span(h + 1) {
        FirstChild(n, h + 1);
        LookMeta(r, h + 1, n);
        LookNil(h, Off(n, h + 1));
        if n >= Span(h) { assert r.kids[Idx(n, h + 1)] == Nil; }
      }
    }
  }

  lemma LookNil(h: nat, n: nat)
    requires n < Span(h)
    ensures Look(Nil, h, n) == 0
  {
  }

  lemma RaisedBlocks(b: nat, t: Tree)
    ensures DataOf(Raised(b, t)) == DataOf(t) && MetaOf(Raised(b, t)) == MetaOf(t) + multiset{b}
  {
    hide DataSum, MetaSum, DataOf, MetaOf;
    var nils := seq(FANOUT, _ => Nil);
    SumNils(nils);
    MetaParts(b, nils[0 := t]);
    assert Raised(b, t).kids == nils[0 := t];
    assert Raised(b, t) == Meta(b, nils[0 := t]);
    DataUpdate(nils, 0, t);
    MetaUpdate(nils, 0, t);
    NilHoldsNothing();
    assert DataSum(nils[0 := t]) + DataOf(nils[0]) == DataSum(nils) + DataOf(t);
    assert MetaSum(nils[0 := t]) + MetaOf(nils[0]) == MetaSum(nils) + MetaOf(t);
    assert nils[0] == Nil;
    Unit(DataSum(nils[0 := t]), DataOf(t));
    Unit(MetaSum(nils[0 := t]), MetaOf(t));
  }

  lemma Unit(a: multiset<nat>, b: multiset<nat>)
    requires a + multiset{} == multiset{} + b
    ensures a == b
  {
    assert a + multiset{} == a && multiset{} + b == b;
  }

  /** All blocks of the device that are mapped, spare or given back. */
  ghost function All(t: Tree, supply: seq<nat>, freed: multiset<nat>): multiset<nat> {
    DataOf(t) + MetaOf(t) + multiset(supply) + freed
  }

  ghost predicate Once(m: multiset<nat>) { forall b :: m[b] <= 1 }

  lemma RaisedAll(t: Tree, h: nat, supply: seq<nat>, freed: multiset<nat>)
    requires supply != [] && 0 !in supply && Shape(t, h)
    ensures supply[0] != 0 && 0 !in supply[1..] && DataOf(Raised(supply[0], t)) == DataOf(t)
    ensures All(Raised(supply[0], t), supply[1..], freed) == All(t, supply, freed)
  {
    hide DataOf, MetaOf, Shape;
    assert supply == [supply[0]] + supply[1..] && supply[0] in supply;
    RaisedBlocks(supply[0], t);
    assert (MetaOf(t) + multiset{supply[0]}) + multiset(supply[1..]) == MetaOf(t) + multiset(supply);
    assert DataOf(t) + (MetaOf(t) + multiset{supply[0]}) + multiset(supply[1..]) == DataOf(t) + MetaOf(t)
        + multiset(supply);
  }

  lemma MetaParts(b: nat, kids: seq<Tree>)
    ensures DataOf(Meta(b, kids)) == DataSum(kids) && MetaOf(Meta(b, kids)) == multiset{b} + MetaSum(kids)
  {
  }

  // ------------------------------------------------------------------- heights

  /** The height that covers file block `last`: the loops that shift by 9 bits per level. */
  function HeightFor(last: nat): (h: nat)
    ensures last < Span(h)
    ensures h > 0 ==> last >= Span(h - 1)
  {
    if last == 0 then 0
    else
      var h := HeightFor(last / FANOUT);
      assert last < FANOUT * Span(h);
      h + 1
  }

  /** It is the least such height. */
  lemma HeightLeast(last: nat, h: nat)
    ensures last < Span(h) <==> HeightFor(last) <= h
  {
    if HeightFor(last) <= h { SpanUp(HeightFor(last), h); }
    if h < HeightFor(last) { SpanUp(h, HeightFor(last) - 1); }
  }

  // -------------------------------------------------------------------- inode

  /** How a truncation ends: with the tree fitted to the new size; in the BUG_ON of the height
      reduction, a root being left; with the reduction reading a null root's pointers; with a
      null root put in place while blocks are counted; or with the inode still pointing to a
      root that was freed. */
  datatype Outcome = Fitted | RootLeft | NullRead | NullLeft | StaleRoot

  class Inode {
    var root: Tree
    var height: nat
    var blocks: nat             // i_blocks
    var supply: seq<nat>        // what the allocator can still give
    ghost var freed: multiset<nat>
    ghost var lost: multiset<nat>   // under children that a height reduction dropped
    ghost var lostData: nat         // how many of them i_blocks still counts

    /** Every block is in the tree, free, given back or lost, and no block is in two places. */
    ghost function Everything(): multiset<nat>
      reads this
    {
      All(root, supply, freed) + lost
    }

    /** The tree and the counts, while the tree may be gone and the height still stand. */
    ghost predicate Fits()
      reads this
    {
      && Shape(root, height) && height <= 3 && blocks == |DataOf(root)| + lostData && 0 !in supply
      && Once(Everything())
    }

    ghost predicate Valid()
      reads this
    {
      Fits() && (root == Nil ==> height == 0)
    }

    /** An empty file. */
    constructor (supply: seq<nat>)
      requires 0 !in supply && Once(multiset(supply))
      ensures Valid() && root == Nil && this.supply == supply && lostData == 0 && lost == multiset{}
    {
      root, height, blocks, this.supply := Nil, 0, 0, supply;
      freed, lost, lostData := multiset{}, multiset{}, 0;
      new;
      assert Everything() == multiset(supply);
    }

    ghost function BlockAt(n: nat): nat
      requires Valid()
      reads this
    {
      MapAt(root, height, n)
    }

    /** No two file blocks share a block, and a mapped block is not free. */
    lemma NoSharing(n: nat, m: nat)
      requires Valid() && n != m && BlockAt(n) != 0
      ensures BlockAt(n) != BlockAt(m) && BlockAt(n) !in supply && BlockAt(n) !in freed && BlockAt(n) !in lost
    {
      hide Look, MetaOf;
      var b := BlockAt(n);
      assert forall c :: DataOf(root)[c] <= Everything()[c];
      LookData(root, height, n);
      assert Everything()[b] == DataOf(root)[b] + MetaOf(root)[b] + multiset(supply)[b] + freed[b] + lost[b];
      if m < Span(height) {
        forall c ensures DataOf(root)[c] <= 1 { assert Everything()[c] <= 1; }
        LookDistinct(root, height, n, m);
      }
    }

    /** pmfs_increase_btree_height. */
    method IncreaseHeight(newHeight: nat) returns (ok: bool)
      requires Valid() && height <= newHeight <= 3
      modifies this`root, this`height, this`supply
      ensures Valid() && Everything() == old(Everything()) && (forall n: nat :: BlockAt(n) == old(BlockAt(n)))
      ensures DataOf(root) == old(DataOf(root)) && (if ok then height == newHeight else supply == [])
      ensures old(height) <= height <= newHeight
      ensures ok && newHeight > old(height) ==> root.Meta? && (newHeight > old(height) + 1 ==> root.kids[0].Meta?)
      ensures if ok then |supply| == |old(supply)| - (newHeight - old(height))
              else |old(supply)| < newHeight - old(height)
      ensures ok && newHeight == old(height) ==> root == old(root)
    {
      hide All, Once, Shape, DataOf, MetaOf, MapAt;
      ok := true;
      while height < newHeight
        invariant old(height) <= height <= newHeight && Valid() && Everything() == old(Everything())
        invariant DataOf(root) == old(DataOf(root)) && forall n: nat :: BlockAt(n) == old(BlockAt(n))
        invariant height > old(height) ==>
                    root.Meta? && |root.kids| > 0 && (height > old(height) + 1 ==> root.kids[0].Meta?)
        invariant |supply| == |old(supply)| - (height - old(height))
        invariant height == old(height) ==> root == old(root)
      {
        if supply == [] { return false; }
        RaisedAll(root, height, supply, freed);
        RaisedMap(supply[0], root, height);
        root, supply := Raised(supply[0], root), supply[1..];
        height := height + 1;
      }
    }

    /** __pmfs_alloc_blocks: on success every requested file block is mapped; in any case what
        was mapped stays and nothing outside the range changes. A new block is one that was
        free, so no two file blocks share one. */
    method AllocateBlocks(first: nat, num: nat) returns (ok: bool)
      requires Valid() && num >= 1
      modifies this`root, this`height, this`supply, this`blocks
      ensures Valid() && Everything() == old(Everything())
      ensures forall n: nat | old(BlockAt(n)) != 0 || !(first <= n < first + num) :: BlockAt(n) == old(BlockAt(n))
      ensures ok ==> forall n: nat | first <= n < first + num :: BlockAt(n) != 0
      ensures ok || HeightFor(first + num - 1) > 3 || supply == []
      ensures ok ==> height == Max(old(height), HeightFor(first + num - 1)) && root != Nil
      ensures ok && HeightFor(first + num - 1) > old(height) + 1 ==>
                root.Meta? && |root.kids| == FANOUT && root.kids[0].Meta?
      ensures HeightFor(first + num - 1) <= 3 && |old(supply)| > 3 * num + 3 ==> ok
      ensures |old(supply)| <= |supply| + 3 * num + 3
    {
      hide All, Once, Shape, DataOf, MetaOf, MapAt, HeightFor, Span, Extends, Took, Grew;
      var last := first + num - 1;
      var h := if HeightFor(last) > height then HeightFor(last) else height;
      HeightLeast(last, h);
      if h > 3 { return false; }
      if root == Nil && h == 0 {
        if supply == [] { return false; }
        OneBlock(supply, first, num, freed);
        root, blocks, supply := Data(supply[0]), blocks + 1, supply[1..];
        return true;
      }
      if h == 0 {
        OneMapped(root, height, first, num);
        return true;
      }
      ok := IncreaseHeight(h);
      if !ok { return false; }
      RootIsMeta(root, height);
      var t, rest, count;
      ghost var ud, um;
      t, rest, ok, count, ud, um := AllocBlocks(root, height, first, last, supply);
      Grows(3, height, num);
      GrewMap(root, t, height, first, last, ok);
      FirstKept(root, t, height);
      Conserved(root, t, supply, rest, ud, um, freed);
      root, supply := t, rest;
      blocks := blocks + count;
    }

    /** __pmfs_truncate_blocks: what becomes of the tree is what `Job.Ends` says. */
    method Truncate(start: nat, end: nat, eof: bool) returns (r: Outcome)
      requires Valid()
      modifies this`root, this`height, this`blocks, this`freed, this`lost, this`lostData
      ensures Everything() == old(Everything()) && (r == Fitted || r == RootLeft ==> Valid())
      ensures if Idle(old(root), old(height), start, end, eof)
              then r == Fitted && root == old(root) && height == old(height) && lost == old(lost)
              else CutOf(old(root), old(height), old(lostData), start, end, eof)
                     .Ends(r, root, height, lost == old(lost), lostData == old(lostData))
    {
      hide All, Once, Shape, DataOf, MetaOf, MapAt, Span, LastBlock, FirstBlock, CutOf, FitEnds, Job.Ends, Trunc;
      if root == Nil { return Fitted; }
      var first := FirstBlock(start);
      if !eof && end == 0 { return Fitted; }
      var last := LastBlock(end, eof, height);
      if first > last { return Fitted; }
      ghost var c := CutOf(root, height, lostData, start, end, eof);
      JobIs(root, height, lostData, start, end, eof);
      CutRange(first, last);
      ghost var t, zero := root, start == 0 || blocks == 0;
      CutZero(c, root, blocks);
      r := FitHeight(start);
      JobEnds(c, t, zero, r, root, height, lost == old(lost), lostData == old(lostData));
    }

    /** Truncation up to the new height. */
    method CutRange(first: nat, last: nat)
      requires Valid() && root != Nil && first <= last < Span(height)
      modifies this`root, this`blocks, this`freed
      ensures Fits() && Everything() == old(Everything()) && root == Trunc(old(root), height, first, last)
      ensures forall n: nat :: MapAt(root, height, n) == if first <= n <= last then 0 else old(MapAt(root, height, n))
    {
      hide All, Once, Shape, DataOf, MetaOf, MapAt, Span, Trunc, Before, After;
      var t, count;
      ghost var fd, fm;
      t, count, fd, fm := TruncateChild(root, height, first, last);
      CutMap(root, t, height, first, last);
      Returned(root, t, supply, freed, fd, fm);
      root, blocks, freed := t, blocks - count, freed + fd + fm;
    }

    /** pmfs_decrease_btree_height. */
    method FitHeight(start: nat) returns (r: Outcome)
      requires Fits() && (start > 0 ==> (start - 1) / BLOCK < Span(height))
      modifies this`root, this`height, this`freed, this`lost, this`lostData
      ensures Everything() == old(Everything()) && (r == Fitted || r == RootLeft ==> Valid())
      ensures FitEnds(old(root), old(height), start, start == 0
                || blocks == 0, r, root, height, lost == old(lost), lostData == old(lostData))
    {
      hide All, Once, Shape, DataOf, MetaOf, MapAt, After, HeightFor, Span, LeftMost, FitTo;
      FitToIs(start, start == 0 || blocks == 0, height);
      if blocks == 0 || start == 0 {
        if root != Nil { return RootLeft; }
        NilMap(height);
        NilAfter(height, Span(0) - 1);
        height := 0;
        return Fitted;
      }
      var h := HeightFor((start - 1) / BLOCK);
      WholeSpan(root, height);
      if height == h {
        return if root == Nil then StaleRoot else Fitted;
      }
      ghost var t, top := root, height;
      r := LowerTo(h);
      LeftMap(t, top, h);
      MapsBeyond(t, top, h);
    }

    /** The loop of pmfs_decrease_btree_height. */
    method LowerTo(h: nat) returns (r: Outcome)
      requires Fits() && h < height
      modifies this`root, this`height, this`freed, this`lost, this`lostData
      ensures Everything() == old(Everything()) && (r == Fitted || r == NullRead || r == NullLeft)
      ensures r == NullRead <==> LeftMost(old(root), old(height), h + 1) == Nil
      ensures r == NullLeft <==>
                LeftMost(old(root), old(height), h + 1) != Nil && LeftMost(old(root), old(height), h) == Nil
      ensures r != NullRead ==> Fits() && height == h && root == LeftMost(old(root), old(height), h)
      ensures r != NullRead ==> (lost == old(lost) <==> After(old(root), old(height), Span(h) - 1))
      ensures r != NullRead ==> |DataOf(root)| + lostData == |DataOf(old(root))| + old(lostData)
    {
      hide All, Once, Shape, DataOf, MetaOf, Span, LeftMost, Lowering, RestData, RestMeta;
      ghost var t, top := root, height;
      LowerBegin(root, height, h, lost);
      while height > h
        invariant h <= height <= top && Fits() && Everything() == old(Everything())
        invariant Lowering(t, top, root, height, h, old(lost), lost)
        invariant height == h ==> LeftMost(t, top, h + 1) != Nil
      {
        LowerHere(t, top, root, height, h, old(lost), lost);
        if root == Nil { return NullRead; }
        LowerStep(t, top, root, height, h, old(lost), lost);
        DropAll(root, supply, freed, lost);
        lost := lost + (RestData(root) + RestMeta(root));
        lostData := lostData + |RestData(root)|;
        freed := freed + multiset{root.block};
        root := root.kids[0];
        height := height - 1;
      }
      LowerDone(t, top, root, h, old(lost), lost);
      return if root == Nil then NullLeft else Fitted;
    }
  }

  /** The loop at height `h`, from `top` down to `low`. */
  ghost predicate Lowering(t: Tree, top: nat, root: Tree, h: nat, low: nat, lost0: multiset<nat>, lost: multiset<nat>) {
    && low <= h <= top && Shape(t, top) && Shape(root, h) && root == LeftMost(t, top, h)
    && Span(low) <= Span(h) && Span(low) <= Span(top) && lost0 <= lost
    && (After(t, top, Span(low) - 1) <==> lost == lost0 && After(root, h, Span(low) - 1))
  }

  lemma LowerBegin(t: Tree, top: nat, low: nat, lost: multiset<nat>)
    requires Shape(t, top) && low <= top
    ensures Lowering(t, top, t, top, low, lost, lost)
  {
    SpanUp(low, top);
  }

  lemma LowerHere(t: Tree, top: nat, root: Tree, h: nat, low: nat, lost0: multiset<nat>, lost: multiset<nat>)
    requires Lowering(t, top, root, h, low, lost0, lost) && h > low
    ensures root == Nil ==> LeftMost(t, top, low) == Nil && LeftMost(t, top, low + 1) == Nil
    ensures h == low + 1 ==> root == LeftMost(t, top, low + 1)
    ensures root != Nil ==> root.Meta? && |root.kids| > 0
  {
    if root == Nil {
      LeftNil(t, top, low, h);
      LeftNil(t, top, low + 1, h);
    }
  }

  lemma LowerStep(t: Tree, top: nat, root: Tree, h: nat, low: nat, lost0: multiset<nat>, lost: multiset<nat>)
    requires Lowering(t, top, root, h, low, lost0, lost) && h > low && root.Meta? && |root.kids| > 0
    ensures Shape(root.kids[0], h - 1)
    ensures Lowering(t, top, root.kids[0], h - 1, low, lost0, lost + (RestData(root) + RestMeta(root)))
  {
    hide LeftMost, After, RestData, RestMeta;
    SpanUp(low, h - 1);
    LeftDeeper(t, top, h - 1);
    RestEmpty(root, h, Span(low) - 1);
    MoreLost(lost0, lost, RestData(root) + RestMeta(root));
  }

  lemma LowerDone(t: Tree, top: nat, root: Tree, low: nat, lost0: multiset<nat>, lost: multiset<nat>)
    requires Lowering(t, top, root, low, low, lost0, lost)
    ensures root == LeftMost(t, top, low) && Span(low) <= Span(top) && (lost == lost0 <==> After(t, top, Span(low) - 1))
  {
    AfterLast(root, low);
  }

  /** Fitting tree `t` of height `h` to `start` bytes, where `zero` says that the file counts
      as empty: how it ends, what the tree maps then, and when no block was dropped. */
  ghost predicate FitEnds(t: Tree, h: nat, start: nat, zero: bool, r: Outcome, t': Tree, h': nat,
                          nothingLost: bool, noDataLost: bool)
    requires Shape(t, h) && (zero || (start > 0 && (start - 1) / BLOCK < Span(h)))
  {
    var k := FitTo(start, zero, h);
    && (r == RootLeft <==> zero && t != Nil)
    && (r == StaleRoot <==> !zero && k == h && t == Nil)
    && (r == NullRead <==> !zero && k < h && LeftMost(t, h, k + 1) == Nil)
    && (r == NullLeft <==> !zero && k < h && LeftMost(t, h, k + 1) != Nil && LeftMost(t, h, k) == Nil)
    && (r == Fitted || r == NullLeft ==>
          && Shape(t', h') && h' == k
              && (forall n: nat :: MapAt(t', h', n) == if n < Span(k) then MapAt(t, h, n) else 0)
          && (nothingLost <==> After(t, h, Span(k) - 1))
          && (noDataLost <==> forall n: nat | n >= Span(k) :: MapAt(t, h, n) == 0))
  }

  lemma MapsBeyond(t: Tree, h: nat, k: nat)
    requires Shape(t, h) && k <= h
    ensures |DataOf(LeftMost(t, h, k))| == |DataOf(t)| <==> forall n: nat | n >= Span(k) :: MapAt(t, h, n) == 0
  {
    hide LeftMost, DataOf, Look;
    DataLeft(t, h, k);
    if NoneBeyond(t, h, k) {
      forall n: nat | n >= Span(k) ensures MapAt(t, h, n) == 0 {
        if n < Span(h) { assert Look(t, h, n) == 0; }
      }
    } else {
      var n: nat :| Span(k) <= n < Span(h) && Look(t, h, n) != 0;
      assert n >= Span(k) && MapAt(t, h, n) != 0;
    }
  }

  // ---------------------------------------------------------------- a truncation

  /** A truncation as it meets the tree: file blocks `first` to `last` are cut, and the file
      shrinks to `start` bytes. */
  datatype Job = Job(t: Tree, h: nat, lostData: nat, start: nat, first: nat, last: nat) {
    ghost predicate OK() { Shape(t, h) && first <= last < Span(h) && first == FirstBlock(start) }

    /** The case of an empty file: nothing is to be left, or nothing is left to count. */
    ghost predicate Zero()
      requires OK()
    {
      start == 0 || (lostData == 0 && forall n: nat | !(first <= n <= last) :: MapAt(t, h, n) == 0)
    }

    /** No pointer before the cut and none after it. */
    ghost predicate Gone()
      requires OK()
    {
      Before(t, h, first) && After(t, h, last)
    }

    ghost function NewHeight(): (n: nat)
      requires OK()
      ensures n <= h && Span(n) <= Span(h)
    {
      if start > 0 then NewLast(start); FitTo(start, Zero(), h) else FitTo(start, Zero(), h)
    }

    /** The leftmost node at height `k` has no pointer outside the cut. */
    ghost predicate LeftGone(k: nat)
      requires OK() && k <= h
    {
      var root := LeftMost(t, h, k);
      if first < Span(k) then Before(root, k, first) && After(root, k, Min(last, Span(k) - 1)) else root == Nil
    }

    /** No pointer lies after both the cut and the span of the new height. */
    ghost predicate NothingDropped()
      requires OK()
    {
      After(t, h, Max(last, Span(NewHeight()) - 1))
    }

    /** No mapped file block lies outside the cut and beyond the span of the new height. */
    ghost predicate NoDataDropped()
      requires OK()
    {
      forall n: nat | n >= Span(NewHeight()) && !(first <= n <= last) :: MapAt(t, h, n) == 0
    }

    /** The five outcomes, each exactly when; and where the reduction gets to the new height, what
        the tree maps, exactly when no block was dropped, and exactly when no data block was, which
        i_blocks would go on counting. */
    ghost predicate Ends(r: Outcome, t': Tree, h': nat, nothingLost: bool, noDataLost: bool)
      requires OK()
    {
      && (r == RootLeft <==> Zero() && !Gone())
      && (r == StaleRoot <==> !Zero() && h == NewHeight() && Gone())
      && (r == NullRead <==> !Zero() && h > NewHeight() && LeftGone(NewHeight() + 1))
      && (r == NullLeft <==> !Zero() && h > NewHeight() && !LeftGone(NewHeight() + 1) && LeftGone(NewHeight()))
      && (r == Fitted || r == NullLeft ==>
            && Shape(t', h') && h' == NewHeight()
            && (forall n: nat :: MapAt(t', h', n) == if first <= n <= last || n >= Span(h') then 0 else MapAt(t, h, n))
            && (nothingLost <==> NothingDropped()) && (noDataLost <==> NoDataDropped()))
    }
  }

  lemma JobEnds(c: Job, t: Tree, zero: bool, r: Outcome, t': Tree, h': nat, nothingLost: bool, noDataLost: bool)
    requires c.OK() && t == Trunc(c.t, c.h, c.first, c.last) && Shape(t, c.h) && (zero <==> c.Zero())
    requires zero || (c.start > 0 && (c.start - 1) / BLOCK < Span(c.h))
    requires c.NewHeight() == FitTo(c.start, zero, c.h)
    requires forall n: nat :: MapAt(t, c.h, n) == if c.first <= n <= c.last then 0 else MapAt(c.t, c.h, n)
    requires FitEnds(t, c.h, c.start, zero, r, t', h', nothingLost, noDataLost)
    ensures c.Ends(r, t', h', nothingLost, noDataLost)
  {
    hide Shape, MapAt, FitTo, LeftMost, Trunc, Before, After, Job.Zero, Job.Gone, Job.LeftGone, Job.NothingDropped,
        Job.NewHeight,
      Job.NoDataDropped;
    CutGone(c, t);
    CutLeft(c, t);
    CutBeyond(c, t);
  }

  lemma CutBeyond(c: Job, t: Tree)
    requires c.OK() && Shape(t, c.h)
    requires forall n: nat :: MapAt(t, c.h, n) == if c.first <= n <= c.last then 0 else MapAt(c.t, c.h, n)
    ensures c.NoDataDropped() <==> forall n: nat | n >= Span(c.NewHeight()) :: MapAt(t, c.h, n) == 0
  {
    hide MapAt, Job.NewHeight;
  }

  ghost function CutOf(t: Tree, h: nat, lostData: nat, start: nat, end: nat, eof: bool): (c: Job)
    requires Shape(t, h) && !Idle(t, h, start, end, eof)
    ensures c.OK()
  {
    Job(t, h, lostData, start, FirstBlock(start), LastBlock(end, eof, h))
  }

  /** The height for the new size. */
  ghost function FitTo(start: nat, zero: bool, h: nat): (k: nat)
    requires zero || (start > 0 && (start - 1) / BLOCK < Span(h))
    ensures k <= h && Span(k) <= Span(h)
  {
    if zero then SpanUp(0, h); 0
    else
      HeightLeast((start - 1) / BLOCK, h);
      SpanUp(HeightFor((start - 1) / BLOCK), h);
      HeightFor((start - 1) / BLOCK)
  }

  lemma FitToIs(start: nat, zero: bool, h: nat)
    requires zero || (start > 0 && (start - 1) / BLOCK < Span(h))
    ensures FitTo(start, zero, h) == if zero then 0 else HeightFor((start - 1) / BLOCK)
  {
  }

  lemma JobIs(t: Tree, h: nat, lostData: nat, start: nat, end: nat, eof: bool)
    requires Shape(t, h) && !Idle(t, h, start, end, eof)
    ensures CutOf(t, h, lostData, start, end, eof)
              == Job(t, h, lostData, start, FirstBlock(start), LastBlock(end, eof, h))
    ensures start > 0 ==> (start - 1) / BLOCK < Span(h)
  {
    if start > 0 { NewLast(start); }
  }

  /** After the cut the count is zero exactly if nothing outside the cut is mapped and nothing
      was lost before. */
  lemma CutZero(c: Job, t: Tree, blocks: nat)
    requires c.OK() && Shape(t, c.h) && blocks == |DataOf(t)| + c.lostData
    requires forall n: nat :: MapAt(t, c.h, n) == if c.first <= n <= c.last then 0 else MapAt(c.t, c.h, n)
    ensures c.start == 0 || blocks == 0 <==> c.Zero()
    ensures c.start > 0 ==> (c.start - 1) / BLOCK < Span(c.h)
    ensures c.NewHeight() == FitTo(c.start, c.start == 0 || blocks == 0, c.h)
  {
    hide Look, FitTo, Shape;
    if c.start > 0 { NewLast(c.start); }
    if |DataOf(t)| > 0 {
      var n := DataLooks(t, c.h);
      assert MapAt(t, c.h, n) != 0;
    } else {
      forall n: nat ensures MapAt(t, c.h, n) == 0 {
        if n < Span(c.h) && Look(t, c.h, n) != 0 { LookData(t, c.h, n); }
      }
      forall n: nat | !(c.first <= n <= c.last) ensures MapAt(c.t, c.h, n) == 0 { assert MapAt(t, c.h, n) == 0; }
    }
  }

  lemma CutGone(c: Job, t: Tree)
    requires c.OK() && t == Trunc(c.t, c.h, c.first, c.last)
    ensures t == Nil <==> c.Gone()
    ensures Shape(t, c.h) && (c.Zero() && t == Nil ==> c.NothingDropped() && After(t, c.h, Span(c.NewHeight()) - 1))
    ensures !c.Zero() ==> (After(t, c.h, Span(c.NewHeight()) - 1) <==> c.NothingDropped())
  {
    hide Shape, Before, After, Trunc;
    TruncNil(c.t, c.h, c.first, c.last);
    TruncShape(c.t, c.h, c.first, c.last);
    NilAfter(c.h, Span(c.NewHeight()) - 1);
    if !c.Zero() {
      NewLast(c.start);
      TruncAfter(c.t, c.h, c.first, c.last, Span(c.NewHeight()) - 1);
    }
  }

  lemma CutLeft(c: Job, t: Tree)
    requires c.OK() && t == Trunc(c.t, c.h, c.first, c.last) && Shape(t, c.h)
    ensures !c.Zero() ==> (LeftMost(t, c.h, c.NewHeight()) == Nil <==> c.LeftGone(c.NewHeight()))
    ensures !c.Zero() && c.NewHeight() < c.h ==>
              (LeftMost(t, c.h, c.NewHeight() + 1) == Nil <==> c.LeftGone(c.NewHeight() + 1))
  {
    hide Shape, Before, After, Trunc, LeftMost;
    if !c.Zero() {
      NewLast(c.start);
      SpanUp(c.NewHeight(), c.NewHeight() + 1);
      CutLeftAt(c, t, c.NewHeight());
      if c.NewHeight() < c.h { CutLeftAt(c, t, c.NewHeight() + 1); }
    }
  }

  lemma CutLeftAt(c: Job, t: Tree, k: nat)
    requires c.OK() && t == Trunc(c.t, c.h, c.first, c.last) && Shape(t, c.h) && k <= c.h && c.first <= Span(k)
    ensures LeftMost(t, c.h, k) == Nil <==> c.LeftGone(k)
  {
    hide Shape, Before, After, Trunc, LeftMost;
    if c.first < Span(k) {
      TruncLeft(c.t, c.h, c.first, c.last, k);
      TruncNil(LeftMost(c.t, c.h, k), k, c.first, Min(c.last, Span(k) - 1));
    } else {
      TruncBeyond(c.t, c.h, c.first, c.last, k);
    }
  }

  lemma WholeSpan(t: Tree, h: nat)
    requires Shape(t, h)
    ensures After(t, h, Span(h) - 1) && forall n: nat | n >= Span(h) :: MapAt(t, h, n) == 0
  {
    AfterLast(t, h);
  }

  lemma LeftMap(t: Tree, h: nat, k: nat)
    requires Shape(t, h) && k <= h
    ensures forall n: nat :: MapAt(LeftMost(t, h, k), k, n) == if n < Span(k) then MapAt(t, h, n) else 0
  {
    hide Look, LeftMost;
    forall n: nat | n < Span(k) ensures MapAt(LeftMost(t, h, k), k, n) == MapAt(t, h, n) { LeftLook(t, h, k, n); }
  }

  lemma DropAll(t: Tree, supply: seq<nat>, freed: multiset<nat>, lost: multiset<nat>)
    requires t.Meta? && |t.kids| > 0
    ensures All(t.kids[0], supply, freed + multiset{t.block})
              + (lost + (RestData(t) + RestMeta(t))) == All(t, supply, freed) + lost
    ensures |DataOf(t)| == |DataOf(t.kids[0])| + |RestData(t)|
  {
    hide DataOf, MetaOf, RestData, RestMeta;
    RestSplit(t);
    var a, b, x, y, z, m := DataOf(t.kids[0]), MetaOf(t.kids[0]), RestData(t), RestMeta(t), multiset(supply),
        multiset{t.block};
    assert (a + b + z + (freed + m)) + (lost + (x + y)) == ((a + x) + (m + (b + y)) + z + freed) + lost;
  }

  lemma MoreLost(l0: multiset<nat>, l: multiset<nat>, x: multiset<nat>)
    requires l0 <= l
    ensures l0 <= l + x && (l + x == l0 <==> l == l0 && x == multiset{})
  {
    if l + x == l0 {
      assert |l + x| == |l| + |x|;
      assert l == l0 + (l - l0);
      assert |l| == |l0| + |l - l0|;
      assert |l - l0| == 0;
      assert l == l0;
    }
  }

  lemma FirstKept(t: Tree, t': Tree, h: nat)
    requires t.Meta? && Shape(t, h) && Shape(t', h) && Extends(t, t')
    ensures t'.Meta? && |t'.kids| == FANOUT && (t.kids[0].Meta? ==> t'.kids[0].Meta?)
  {
  }

  lemma NewLast(start: nat)
    requires start > 0
    ensures FirstBlock(start) > 0 && FirstBlock(start) - 1 == (start - 1) / BLOCK
  {
  }

  /** Truncation finds nothing to do. */
  ghost predicate Idle(t: Tree, h: nat, start: nat, end: nat, eof: bool) {
    t == Nil || (!eof && end == 0) || FirstBlock(start) > LastBlock(end, eof, h)
  }

  lemma CutMap(t: Tree, t': Tree, h: nat, first: nat, last: nat)
    requires Shape(t, h) && Shape(t', h) && first <= last < Span(h) && Cut(t, t', h, first, last)
    ensures forall n: nat :: MapAt(t', h, n) == if first <= n <= last then 0 else MapAt(t, h, n)
  {
    hide Look;
  }

  lemma {:induction false} AfterMap(t: Tree, h: nat, last: nat, n: nat)
    requires Shape(t, h) && last < n < Span(h) && After(t, h, last)
    ensures Look(t, h, n) == 0
    decreases h
  {
    if t.Meta? {
      hide Idx, Off;
      AfterMeta(t, h, last);
      IdxOff(last, h);
      IdxOff(n, h);
      Order(Idx(n, h), Off(n, h), Idx(last, h), Off(last, h), Span(h - 1));
      LookMeta(t, h, n);
      if Idx(n, h) == Idx(last, h) { AfterMap(t.kids[Idx(n, h)], h - 1, Off(last, h), Off(n, h)); }
    }
  }

  lemma Returned(t: Tree, t': Tree, supply: seq<nat>, freed: multiset<nat>, fd: multiset<nat>, fm: multiset<nat>)
    requires DataOf(t) == DataOf(t') + fd && MetaOf(t) == MetaOf(t') + fm
    ensures All(t', supply, freed + fd + fm) == All(t, supply, freed)
    ensures |DataOf(t')| == |DataOf(t)| - |fd|
  {
    hide DataOf, MetaOf;
    assert (DataOf(t') + fd) + (MetaOf(t') + fm) + multiset(supply) + freed == DataOf(t') + MetaOf(t')
        + multiset(supply) + (freed + fd + fm);
  }

  lemma NilMap(h: nat)
    ensures Shape(Nil, 0) && Shape(Nil, h) && forall n: nat :: MapAt(Nil, 0, n) == 0 && MapAt(Nil, h, n) == 0
  {
  }

  const BLOCK: nat := 4096

  /** The last file block that truncation looks at: pmfs_sparse_last_blocknr. */
  function LastBlock(end: nat, eof: bool, h: nat): (n: nat)
    requires eof || end > 0
    ensures n < Span(h)
  {
    if eof || (end - 1) / BLOCK >= Span(h) then Span(h) - 1 else (end - 1) / BLOCK
  }

  function FirstBlock(start: nat): nat { (start + BLOCK - 1) / BLOCK }

  lemma OneBlock(supply: seq<nat>, first: nat, num: nat, freed: multiset<nat>)
    requires supply != [] && 0 !in supply && num >= 1 && first + num - 1 < Span(0)
    ensures Shape(Data(supply[0]), 0) && 0 !in supply[1..] && |DataOf(Data(supply[0]))| == 1 && |DataOf(Nil)| == 0
    ensures All(Data(supply[0]), supply[1..], freed) == All(Nil, supply, freed)
    ensures forall n: nat :: MapAt(Nil, 0, n) == 0 && MapAt(Data(supply[0]), 0, n) == if n == 0 then supply[0] else 0
    ensures first == 0 && num == 1 && supply[0] != 0
  {
    assert supply == [supply[0]] + supply[1..] && supply[0] in supply;
  }

  lemma OneMapped(t: Tree, h: nat, first: nat, num: nat)
    requires Shape(t, h) && t != Nil && h == 0 && num >= 1 && first + num - 1 < Span(0)
    ensures first == 0 && num == 1 && MapAt(t, h, 0) != 0
  {
  }

  lemma RootIsMeta(t: Tree, h: nat)
    requires Shape(t, h) && t != Nil && h > 0
    ensures t.Meta?
  {
  }

  lemma GrewMap(t: Tree, t': Tree, h: nat, first: nat, last: nat, ok: bool)
    requires Shape(t, h) && Shape(t', h) && first <= last < Span(h) && Grew(t, t', h, first, last, ok)
    ensures forall n: nat | MapAt(t, h, n) != 0 || !(first <= n <= last) :: MapAt(t', h, n) == MapAt(t, h, n)
    ensures ok ==> forall n: nat | first <= n <= last :: MapAt(t', h, n) != 0
  {
    hide Look;
  }

  lemma Conserved(t: Tree, t': Tree, supply: seq<nat>, rest: seq<nat>, ud: multiset<nat>, um: multiset<nat>,
                  freed: multiset<nat>)
    requires Took(t, t', supply, rest, ud, um)
    ensures All(t', rest, freed) == All(t, supply, freed) && (0 !in supply ==> 0 !in rest)
    ensures |DataOf(t')| == |DataOf(t)| + |ud|
  {
    hide DataOf, MetaOf;
    assert (DataOf(t) + ud) + (MetaOf(t) + um) + multiset(rest) == DataOf(t) + MetaOf(t) + (multiset(rest) + (ud + um));
  }
}
