/** Allocating, truncating and changing the height of the block tree of a PMFS inode
    (pmfs/inode.c). */
module PmfsBTree {
  import opened Division
  import opened PmfsTree

  // ------------------------------------------------------------------ truncation

  /** `t'` maps what `t` maps outside the range, and nothing inside. */
  ghost predicate Cut(t: Tree, t': Tree, h: nat, first: nat, last: nat)
    requires Shape(t, h) && Shape(t', h)
  {
    forall n: nat | n < Span(h) :: Look(t', h, n) == if first <= n <= last then 0 else Look(t, h, n)
  }

  lemma CutKids(b: nat, kids: seq<Tree>, out: seq<Tree>, h: nat, first: nat, last: nat)
    requires h > 0 && first <= last < Span(h) && Shape(Meta(b, kids), h) && Shape(Meta(b, out), h)
    requires forall i | 0 <= i < FANOUT ::
      if Idx(first, h) <= i <= Idx(last, h) then Cut(kids[i], out[i], h - 1, Lo(first, h, i), Hi(last, h, i))
          else out[i] == kids[i]
    ensures Cut(Meta(b, kids), Meta(b, out), h, first, last)
  {
    hide Idx, Off, Lo, Hi;
    forall n: nat | n < Span(h)
      ensures Look(Meta(b, out), h, n) == if first <= n <= last then 0 else Look(Meta(b, kids), h, n)
    {
      RangeSplits(first, last, n, h);
      var i := Idx(n, h);
      if Idx(first, h) <= i <= Idx(last, h) {
        assert Cut(kids[i], out[i], h - 1, Lo(first, h, i), Hi(last, h, i));
      }
    }
  }

  lemma CutToNil(b: nat, kids: seq<Tree>, out: seq<Tree>, h: nat, first: nat, last: nat)
    requires Shape(Meta(b, kids), h) && Shape(Meta(b, out), h) && Cut(Meta(b, kids), Meta(b, out), h, first, last)
    requires forall i | 0 <= i < |out| :: out[i] == Nil
    ensures Cut(Meta(b, kids), Nil, h, first, last)
  {
    hide Idx, Off;
    forall n: nat | n < Span(h) ensures Look(Nil, h, n) == if first <= n <= last then 0 else Look(Meta(b, kids), h, n) {
      assert Look(Meta(b, out), h, n) == Look(out[Idx(n, h)], h - 1, Off(n, h));
    }
  }

  /** is_empty_meta_block: no pointer outside the range. */
  predicate EmptyOutside(kids: seq<Tree>, lo: nat, hi: nat) {
    forall i | 0 <= i < |kids| && !(lo <= i <= hi) :: kids[i] == Nil
  }

  /** The loop of recursive_truncate_blocks before child `i`: `out` are the children as they
      will be, `kids` the pointers as they are, with those to emptied children still there. */
  ghost predicate Cutting(kids0: seq<Tree>, kids: seq<Tree>, out: seq<Tree>, h: nat, first: nat, last: nat, i: nat,
                          start: nat, end: int, all: bool)
    requires h > 0 && first <= last < Span(h)
  {
    var lo, hi := Idx(first, h), Idx(last, h);
    && |kids0| == FANOUT && |kids| == FANOUT && |out| == FANOUT && lo <= i <= hi + 1
    && (forall j | 0 <= j < FANOUT :: Shape(kids0[j], h - 1) && Shape(out[j], h - 1))
    && (forall j | lo <= j < i :: Cut(kids0[j], out[j], h - 1, Lo(first, h, j), Hi(last, h, j)))
    && (forall j | 0 <= j < FANOUT && !(lo <= j < i) :: out[j] == kids0[j])
    && (forall j | 0 <= j < FANOUT :: kids[j] == out[j] || (out[j] == Nil && lo <= j < i))
    && (all <==> forall j | lo <= j < i :: out[j] == Nil)
    && (forall j | lo < j < i && j < hi :: out[j] == Nil)
    && start == (if lo < i && out[lo] != Nil then lo + 1 else lo)
    && end == (if lo < hi < i && out[hi] != Nil then hi - 1 else hi)
  }

  /** The pointers zeroed at the end. */
  function Zeroed(kids: seq<Tree>, start: nat, end: int): (z: seq<Tree>)
    ensures |z| == |kids| && forall j | 0 <= j < |z| :: z[j] == if start <= j <= end then Nil else kids[j]
  {
    seq(|kids|, j requires 0 <= j < |kids| => if start <= j <= end then Nil else kids[j])
  }

  /** Zeroing from `start` to `end` clears exactly the pointers to what was freed. */
  lemma ZeroedIsOut(kids0: seq<Tree>, kids: seq<Tree>, out: seq<Tree>, h: nat, first: nat, last: nat, start: nat,
                    end: int, all: bool)
    requires h > 0 && first <= last < Span(h)
    requires Cutting(kids0, kids, out, h, first, last, Idx(last, h) + 1, start, end, all)
    ensures Zeroed(kids, start, end) == out
  {
    hide Cut, Idx, Shape;
    IndexOrder(first, last, h);
    var z := Zeroed(kids, start, end);
    forall j | 0 <= j < FANOUT ensures z[j] == out[j] {}
  }

  lemma StepCutting(kids0: seq<Tree>, kids: seq<Tree>, out: seq<Tree>, h: nat, first: nat, last: nat, i: nat,
                    start: nat, end: int, all: bool, c: Tree)
    requires h > 0 && first <= last < Span(h) && i <= Idx(last, h)
    requires Cutting(kids0, kids, out, h, first, last, i, start, end, all)
    requires Shape(c, h - 1) && Cut(kids0[i], c, h - 1, Lo(first, h, i), Hi(last, h, i))
    requires Idx(first, h) < i < Idx(last, h) ==> c == Nil
    ensures var kids' := if c == Nil then kids else kids[i := c];
            var start' := if c != Nil && i == Idx(first, h) then start + 1 else start;
            var end' := if c != Nil && i != Idx(first, h) && i == Idx(last, h) then end - 1 else end;
            Cutting(kids0, kids', out[i := c], h, first, last, i + 1, start', end', all && c == Nil)
  {
    hide Cut, Shape, Idx, Lo, Hi;
    IndexOrder(first, last, h);
  }

  ghost predicate IsFull(h: nat, first: nat, last: nat) { first == 0 && last == Span(h) - 1 }

  /** Children strictly inside the range, and all children of a full range, lose everything. */
  lemma FullParts(first: nat, last: nat, h: nat, i: nat)
    requires h > 0 && first <= last < Span(h) && Idx(first, h) <= i <= Idx(last, h)
    requires IsFull(h, first, last) || Idx(first, h) < i < Idx(last, h)
    ensures IsFull(h - 1, Lo(first, h, i), Hi(last, h, i))
  {
    if IsFull(h, first, last) {
      var c := Span(h - 1);
      IdxOffOf(0, 0, h);
      IdxOffOf(FANOUT - 1, c - 1, h);
      assert 0 * c + 0 == 0 && (FANOUT - 1) * c + (c - 1) == FANOUT * c - 1;
    }
  }

  lemma CutNil(h: nat, first: nat, last: nat)
    ensures Cut(Nil, Nil, h, first, last)
  {
  }

  lemma CutLeaf(b: nat, first: nat, last: nat)
    requires b != 0 && first == 0
    ensures Cut(Data(b), Nil, 0, first, last)
  {
    assert Span(0) == 1;
  }

  /** Conservation and tightness so far. */
  ghost predicate Kept(kids0: seq<Tree>, out: seq<Tree>, fd: multiset<nat>, fm: multiset<nat>, tight: bool) {
    && DataSum(kids0) == DataSum(out) + fd && MetaSum(kids0) == MetaSum(out) + fm
    && (tight ==> forall j | 0 <= j < |out| :: Tight(out[j]))
  }

  lemma StepKept(kids0: seq<Tree>, out: seq<Tree>, fd: multiset<nat>, fm: multiset<nat>, tight: bool, i: nat, c: Tree,
                 d: multiset<nat>, m: multiset<nat>)
    requires Kept(kids0, out, fd, fm, tight) && i < |out| && DataOf(out[i]) == DataOf(c) + d
    requires MetaOf(out[i]) == MetaOf(c) + m
    requires tight ==> Tight(c)
    ensures Kept(kids0, out[i := c], fd + d, fm + m, tight)
  {
    hide DataSum, MetaSum, DataOf, MetaOf, Tight;
    DataUpdate(out, i, c);
    MetaUpdate(out, i, c);
    Balance(DataSum(kids0), DataSum(out), DataSum(out[i := c]), fd, DataOf(out[i]), DataOf(c), d);
    Balance(MetaSum(kids0), MetaSum(out), MetaSum(out[i := c]), fm, MetaOf(out[i]), MetaOf(c), m);
  }

  lemma Balance(all: multiset<nat>, out: multiset<nat>, out': multiset<nat>, f: multiset<nat>, was: multiset<nat>,
                now: multiset<nat>, d: multiset<nat>)
    requires all == out + f && out' + was == out + now && was == now + d
    ensures all == out' + (f + d)
  {
    assert (out' + d) + now == out + now;
    assert out' + d == out by { Cancel(out' + d, out, now); }
  }

  lemma Cancel(a: multiset<nat>, b: multiset<nat>, c: multiset<nat>)
    requires a + c == b + c
    ensures a == b
  {
    assert (a + c) - c == a && (b + c) - c == b;
  }

  /** recursive_truncate_blocks on a meta block. When `empty`, the caller frees the block;
      `fd` and `fm` are the data and meta blocks freed below it. */
  method TruncateBlocks(t: Tree, h: nat, first: nat, last: nat)
    returns (t': Tree, empty: bool, freed: nat, ghost fd: multiset<nat>, ghost fm: multiset<nat>)
    requires t.Meta? && Shape(t, h) && first <= last < Span(h)
    ensures (if empty then t' == Nil else t'.Meta? && t'.block == t.block) && Shape(t', h) && Cut(t, t', h, first, last)
    ensures DataOf(t) == DataOf(t') + fd && freed == |fd|
    ensures MetaOf(t) == MetaOf(t') + fm + (if empty then multiset{t.block} else multiset{})
    ensures t' == Trunc(t, h, first, last) && (empty <==> Before(t, h, first) && After(t, h, last))
    ensures (IsFull(h, first, last) ==> empty) && (Tight(t) ==> Tight(t'))
    decreases h, 0
  {
    hide Work, Shape, Cut, Tight, DataOf, MetaOf, Lo, Hi, Off, Idx, Before, After, Trunc;
    BeginWork(t, h, first, last);
    var kids, all := t.kids, true;
    var lo, hi := Idx(first, h), Idx(last, h);
    var start, end: int, i := lo, hi, lo;
    ghost var out := kids;
    freed, fd, fm := 0, multiset{}, multiset{};
    while i <= hi
      invariant i <= hi + 1 && freed == |fd|
      invariant Work(t, kids, out, h, first, last, i, start, end, all, fd, fm)
    {
      WorkHere(t, kids, out, h, first, last, i, start, end, all, fd, fm);
      var c, count;
      ghost var d, m;
      c, count, d, m := TruncateChild(kids[i], h - 1, Lo(first, h, i), Hi(last, h, i));
      WorkStep(t, kids, out, h, first, last, i, start, end, all, fd, fm, c, d, m);
      freed := freed + count;
      if c != Nil {
        kids := kids[i := c];
        if i == lo { start := start + 1; } else if i == hi { end := end - 1; }
        all := false;
      }
      out, fd, fm := out[i := c], fd + d, fm + m;
      i := i + 1;
    }
    WorkDone(t, kids, out, h, first, last, start, end, all, fd, fm);
    if all && EmptyOutside(kids, lo, hi) {
      t', empty := Nil, true;
    } else {
      t', empty := t.(kids := Zeroed(kids, start, end)), false;
    }
  }

  ghost predicate Work(t: Tree, kids: seq<Tree>, out: seq<Tree>, h: nat, first: nat, last: nat, i: nat,
                       start: nat, end: int, all: bool, fd: multiset<nat>, fm: multiset<nat>)
  {
    && t.Meta? && Shape(t, h) && first <= last < Span(h)
    && Cutting(t.kids, kids, out, h, first, last, i, start, end, all)
    && Kept(t.kids, out, fd, fm, Tight(t)) && (IsFull(h, first, last) ==> all)
    && Exact(t.kids, out, h, first, last, i)
  }

  /** What truncation makes of a tree: the children in the range are truncated, and a meta
      block that is left without a pointer goes. */
  ghost function Trunc(t: Tree, h: nat, first: nat, last: nat): Tree
    requires Shape(t, h) && first <= last < Span(h)
    decreases h, 1
  {
    if t.Meta? then
      var out := TruncKids(t, h, first, last);
      if NoneLeft(out) then Nil else t.(kids := out)
    else Nil
  }

  ghost predicate NoneLeft(kids: seq<Tree>) { forall j | 0 <= j < |kids| :: kids[j] == Nil }

  ghost function TruncKids(t: Tree, h: nat, first: nat, last: nat): (out: seq<Tree>)
    requires t.Meta? && Shape(t, h) && first <= last < Span(h)
    ensures |out| == FANOUT
    decreases h, 0
  {
    seq(FANOUT, j requires 0 <= j < FANOUT => TruncKid(t, h, first, last, j))
  }

  ghost function TruncKid(t: Tree, h: nat, first: nat, last: nat, j: nat): Tree
    requires t.Meta? && Shape(t, h) && first <= last < Span(h) && j < FANOUT
    decreases h - 1, 2
  {
    if Idx(first, h) <= j <= Idx(last, h) then
      PartOrder(first, last, h, j);
      Trunc(t.kids[j], h - 1, Lo(first, h, j), Hi(last, h, j))
    else t.kids[j]
  }

  lemma TruncMeta(t: Tree, h: nat, first: nat, last: nat)
    requires t.Meta? && Shape(t, h) && first <= last < Span(h)
    ensures var out := TruncKids(t, h, first, last);
            Trunc(t, h, first, last) == if NoneLeft(out) then Nil else t.(kids := out)
  {
  }

  lemma KidIs(t: Tree, h: nat, first: nat, last: nat, j: nat)
    requires t.Meta? && Shape(t, h) && first <= last < Span(h) && j < FANOUT
    ensures h > 0 && |t.kids| == FANOUT && Shape(t.kids[j], h - 1)
    ensures if Idx(first, h) <= j <= Idx(last, h)
            then IsTrunc(t.kids[j], TruncKids(t, h, first, last)[j], h - 1, Lo(first, h, j), Hi(last, h, j))
            else TruncKids(t, h, first, last)[j] == t.kids[j]
  {
    hide Idx, Lo, Hi;
    if Idx(first, h) <= j <= Idx(last, h) { PartOrder(first, last, h, j); }
    assert TruncKids(t, h, first, last)[j] == TruncKid(t, h, first, last, j);
  }

  /** The children before `i` are as truncation leaves them. */
  ghost predicate Exact(kids0: seq<Tree>, out: seq<Tree>, h: nat, first: nat, last: nat, i: nat)
    requires h > 0 && first <= last < Span(h)
  {
    && |kids0| == FANOUT && |out| == FANOUT && (forall j | 0 <= j < FANOUT :: Shape(kids0[j], h - 1))
    && forall j | Idx(first, h) <= j < i && j <= Idx(last, h) ::
        IsTrunc(kids0[j], out[j], h - 1, Lo(first, h, j), Hi(last, h, j))
  }

  ghost predicate IsTrunc(k: Tree, c: Tree, h: nat, lo: nat, hi: nat) {
    Shape(k, h) && lo <= hi < Span(h) && c == Trunc(k, h, lo, hi)
  }

  lemma ExactWhole(t: Tree, out: seq<Tree>, h: nat, first: nat, last: nat)
    requires t.Meta? && Shape(t, h) && first <= last < Span(h) && Exact(t.kids, out, h, first, last, Idx(last, h) + 1)
    requires forall j | 0 <= j < FANOUT && !(Idx(first, h) <= j <= Idx(last, h)) :: out[j] == t.kids[j]
    ensures Trunc(t, h, first, last) == if NoneLeft(out) then Nil else t.(kids := out)
  {
    hide Idx, Lo, Hi, Trunc, TruncKids;
    var o := TruncKids(t, h, first, last);
    TruncMeta(t, h, first, last);
    forall j | 0 <= j < FANOUT ensures o[j] == out[j] {
      KidIs(t, h, first, last, j);
      if Idx(first, h) <= j <= Idx(last, h) {
        assert IsTrunc(t.kids[j], out[j], h - 1, Lo(first, h, j), Hi(last, h, j));
      }
    }
    assert o == out;
  }

  lemma PreviousBlock(first: nat, h: nat)
    requires h > 0 && 0 < first < Span(h)
    ensures if Off(first, h) > 0 then Idx(first - 1, h) == Idx(first, h) && Off(first - 1, h) == Off(first, h) - 1
            else Idx(first, h) > 0 && Idx(first - 1, h) == Idx(first, h) - 1 && Off(first - 1, h) == Span(h - 1) - 1
  {
    var c, i, r := Span(h - 1), Idx(first, h), Off(first, h);
    IdxOff(first, h);
    if r > 0 {
      IdxOffOf(i, r - 1, h);
    } else {
      assert i > 0;
      IdxOffOf(i - 1, c - 1, h);
      assert (i - 1) * c + (c - 1) == i * c - 1;
    }
  }

  /** No pointer before file block `first`, on any level. */
  ghost predicate Before(t: Tree, h: nat, first: nat)
    requires Shape(t, h) && first < Span(h)
    decreases h
  {
    t.Meta? ==>
        (forall j | 0 <= j < Idx(first, h) :: t.kids[j] == Nil) && Before(t.kids[Idx(first, h)], h - 1, Off(first, h))
  }

  /** No pointer after file block `last`, on any level. */
  ghost predicate After(t: Tree, h: nat, last: nat)
    requires Shape(t, h) && last < Span(h)
    decreases h
  {
    t.Meta? ==>
        (forall j | Idx(last, h) < j < FANOUT :: t.kids[j] == Nil) && After(t.kids[Idx(last, h)], h - 1, Off(last, h))
  }

  lemma {:induction false} BeforeZero(t: Tree, h: nat)
    requires Shape(t, h)
    ensures Before(t, h, 0)
    decreases h
  {
    if t.Meta? {
      IdxOffOf(0, 0, h);
      assert 0 * Span(h - 1) + 0 == 0;
      BeforeZero(t.kids[0], h - 1);
    }
  }

  lemma {:induction false} AfterLast(t: Tree, h: nat)
    requires Shape(t, h)
    ensures After(t, h, Span(h) - 1)
    decreases h
  {
    if t.Meta? {
      var c := Span(h - 1);
      IdxOffOf(FANOUT - 1, c - 1, h);
      assert (FANOUT - 1) * c + (c - 1) == FANOUT * c - 1;
      AfterLast(t.kids[FANOUT - 1], h - 1);
    }
  }

  /** A tree is emptied exactly if it has no pointer before the range and none after it. */
  lemma {:induction false} TruncNil(t: Tree, h: nat, first: nat, last: nat)
    requires Shape(t, h) && first <= last < Span(h)
    ensures Trunc(t, h, first, last) == Nil <==> Before(t, h, first) && After(t, h, last)
    decreases h, 1
  {
    if t.Meta? {
      hide Idx, Off, Lo, Hi, Before, After, Trunc, TruncKids, Shape;
      var out := TruncKids(t, h, first, last);
      TruncMeta(t, h, first, last);
      var lo, hi := Idx(first, h), Idx(last, h);
      BeforeMeta(t, h, first);
      AfterMeta(t, h, last);
      IndexOrder(first, last, h);
      forall j | 0 <= j < FANOUT
        ensures lo <= j <= hi ==>
                (out[j] == Nil <==>
                    (j == lo ==> Before(t.kids[lo], h - 1, Off(first, h)))
                    && (j == hi ==> After(t.kids[hi], h - 1, Off(last, h))))
        ensures !(lo <= j <= hi) ==> out[j] == t.kids[j]
      {
        KidNil(t, h, first, last, j);
      }
      AllNil(t.kids, out, lo, hi, Before(t.kids[lo], h - 1, Off(first, h)), After(t.kids[hi], h - 1, Off(last, h)));
    }
  }

  lemma {:induction false} KidNil(t: Tree, h: nat, first: nat, last: nat, j: nat)
    requires t.Meta? && Shape(t, h) && first <= last < Span(h) && j < FANOUT
    ensures var out := TruncKids(t, h, first, last);
            if Idx(first, h) <= j <= Idx(last, h)
            then out[j] == Nil <==>
                (j == Idx(first, h) ==> Before(t.kids[j], h - 1, Off(first, h)))
                && (j == Idx(last, h) ==> After(t.kids[j], h - 1, Off(last, h)))
            else out[j] == t.kids[j]
    decreases h, 0
  {
    hide Idx, Off, Lo, Hi, Before, After, Trunc, TruncKids, Shape;
    KidIs(t, h, first, last, j);
    if Idx(first, h) <= j <= Idx(last, h) {
      TruncNil(t.kids[j], h - 1, Lo(first, h, j), Hi(last, h, j));
      KidEdges(t, h, first, last, j);
    }
  }

  lemma KidEdges(t: Tree, h: nat, first: nat, last: nat, j: nat)
    requires t.Meta? && Shape(t, h) && first <= last < Span(h) && Idx(first, h) <= j <= Idx(last, h)
    ensures Before(t.kids[j], h - 1, Lo(first, h, j)) <==>
              (j == Idx(first, h) ==> Before(t.kids[j], h - 1, Off(first, h)))
    ensures After(t.kids[j], h - 1, Hi(last, h, j)) <==> (j == Idx(last, h) ==> After(t.kids[j], h - 1, Off(last, h)))
  {
    hide Idx, Off, Before, After;
    if j != Idx(first, h) { BeforeZero(t.kids[j], h - 1); }
    if j != Idx(last, h) { AfterLast(t.kids[j], h - 1); }
  }

  lemma AllNil(kids: seq<Tree>, out: seq<Tree>, lo: nat, hi: nat, b: bool, a: bool)
    requires |kids| == |out| == FANOUT && lo <= hi < FANOUT
    requires forall j | 0 <= j < FANOUT && !(lo <= j <= hi) :: out[j] == kids[j]
    requires forall j | lo <= j <= hi :: out[j] == Nil <==> (j == lo ==> b) && (j == hi ==> a)
    ensures (forall j | 0 <= j < FANOUT :: out[j] == Nil) <==>
            (forall j | 0 <= j < lo :: kids[j] == Nil) && b && (forall j | hi < j < FANOUT :: kids[j] == Nil) && a
  {
    if forall j | 0 <= j < FANOUT :: out[j] == Nil {
      assert out[lo] == Nil && out[hi] == Nil;
      forall j | 0 <= j < lo ensures kids[j] == Nil { assert out[j] == Nil; }
      forall j | hi < j < FANOUT ensures kids[j] == Nil { assert out[j] == Nil; }
    }
  }

  lemma BeforeMeta(t: Tree, h: nat, first: nat)
    requires t.Meta? && Shape(t, h) && first < Span(h)
    ensures h > 0 && |t.kids| == FANOUT && Shape(t.kids[Idx(first, h)], h - 1)
    ensures Before(t, h, first) <==>
              (forall j | 0 <= j < Idx(first, h) :: t.kids[j] == Nil)
              && Before(t.kids[Idx(first, h)], h - 1, Off(first, h))
  {
    hide Idx, Off;
  }

  lemma AfterMeta(t: Tree, h: nat, last: nat)
    requires t.Meta? && Shape(t, h) && last < Span(h)
    ensures h > 0 && |t.kids| == FANOUT && Shape(t.kids[Idx(last, h)], h - 1)
    ensures After(t, h, last) <==>
              (forall j | Idx(last, h) < j < FANOUT :: t.kids[j] == Nil)
              && After(t.kids[Idx(last, h)], h - 1, Off(last, h))
  {
    hide Idx, Off;
  }

  lemma BeginWork(t: Tree, h: nat, first: nat, last: nat)
    requires t.Meta? && Shape(t, h) && first <= last < Span(h)
    ensures h > 0 && Idx(first, h) <= Idx(last, h)
    ensures Work(t, t.kids, t.kids, h, first, last, Idx(first, h), Idx(first, h), Idx(last, h), true, multiset{},
              multiset{})
  {
    hide Cutting, Kept;
    IndexOrder(first, last, h);
    BeginCutting(t, h, first, last);
    assert Exact(t.kids, t.kids, h, first, last, Idx(first, h));
  }

  lemma WorkHere(t: Tree, kids: seq<Tree>, out: seq<Tree>, h: nat, first: nat, last: nat, i: nat,
                 start: nat, end: int, all: bool, fd: multiset<nat>, fm: multiset<nat>)
    requires h > 0 && Work(t, kids, out, h, first, last, i, start, end, all, fd, fm) && i <= Idx(last, h)
    ensures i < |kids| == |out| && kids[i] == out[i] && Shape(kids[i], h - 1)
    ensures first < Span(h) && last < Span(h) && Lo(first, h, i) <= Hi(last, h, i) < Span(h - 1)
  {
    hide Kept, Lo, Hi;
    Untouched(t.kids, kids, out, h, first, last, i, start, end, all);
    PartOrder(first, last, h, i) by { InsideNow(t.kids, kids, out, h, first, last, i, start, end, all); }
  }

  lemma InsideNow(kids0: seq<Tree>, kids: seq<Tree>, out: seq<Tree>, h: nat, first: nat, last: nat, i: nat, start: nat,
                  end: int, all: bool)
    requires h > 0 && first <= last < Span(h) && Cutting(kids0, kids, out, h, first, last, i, start, end, all)
    ensures Idx(first, h) <= i
  {
  }

  lemma WorkStep(t: Tree, kids: seq<Tree>, out: seq<Tree>, h: nat, first: nat, last: nat, i: nat,
                 start: nat, end: int, all: bool, fd: multiset<nat>, fm: multiset<nat>, c: Tree, d: multiset<nat>,
                     m: multiset<nat>)
    requires h > 0 && first <= last < Span(h) && i <= Idx(last, h) && i < |kids| == |out| && kids[i] == out[i]
    requires Shape(kids[i], h - 1)
    requires Work(t, kids, out, h, first, last, i, start, end, all, fd, fm)
    requires Shape(c, h - 1) && Cut(kids[i], c, h - 1, Lo(first, h, i), Hi(last, h, i))
    requires DataOf(kids[i]) == DataOf(c) + d && MetaOf(kids[i]) == MetaOf(c) + m
    requires (IsFull(h - 1, Lo(first, h, i), Hi(last, h, i)) ==> c == Nil) && (Tight(kids[i]) ==> Tight(c))
    requires IsTrunc(kids[i], c, h - 1, Lo(first, h, i), Hi(last, h, i))
    ensures var kids' := if c == Nil then kids else kids[i := c];
            var start' := if c != Nil && i == Idx(first, h) then start + 1 else start;
            var end' := if c != Nil && i != Idx(first, h) && i == Idx(last, h) then end - 1 else end;
            Work(t, kids', out[i := c], h, first, last, i + 1, start', end', all && c == Nil, fd + d, fm + m)
  {
    hide Kept, Lo, Hi, Cut, Tight, DataOf, MetaOf, Idx, Cutting, Shape, Exact, IsTrunc;
    InsideNow(t.kids, kids, out, h, first, last, i, start, end, all);
    Untouched(t.kids, kids, out, h, first, last, i, start, end, all);
    TightKid(t, i);
    if IsFull(h, first, last) || Idx(first, h) < i < Idx(last, h) { FullParts(first, last, h, i); }
    StepCutting(t.kids, kids, out, h, first, last, i, start, end, all, c);
    StepKept(t.kids, out, fd, fm, Tight(t), i, c, d, m);
    StepExact(t.kids, out, h, first, last, i, c);
  }

  lemma StepExact(kids0: seq<Tree>, out: seq<Tree>, h: nat, first: nat, last: nat, i: nat, c: Tree)
    requires h > 0 && first <= last < Span(h) && Idx(first, h) <= i <= Idx(last, h)
    requires Exact(kids0, out, h, first, last, i) && IsTrunc(kids0[i], c, h - 1, Lo(first, h, i), Hi(last, h, i))
    ensures Exact(kids0, out[i := c], h, first, last, i + 1)
  {
    hide Shape, Idx, Lo, Hi, IsTrunc;
  }

  lemma WorkDone(t: Tree, kids: seq<Tree>, out: seq<Tree>, h: nat, first: nat, last: nat,
                 start: nat, end: int, all: bool, fd: multiset<nat>, fm: multiset<nat>)
    requires h > 0 && first <= last < Span(h)
    requires Work(t, kids, out, h, first, last, Idx(last, h) + 1, start, end, all, fd, fm)
    ensures var empty := all && EmptyOutside(kids, Idx(first, h), Idx(last, h));
            var t' := if empty then Nil else t.(kids := Zeroed(kids, start, end));
            && Shape(t', h) && Cut(t, t', h, first, last) && DataOf(t) == DataOf(t') + fd
            && MetaOf(t) == MetaOf(t') + fm + (if empty then multiset{t.block} else multiset{})
            && (IsFull(h, first, last) ==> empty) && (Tight(t) ==> Tight(t'))
            && t' == Trunc(t, h, first, last) && (empty <==> Before(t, h, first) && After(t, h, last))
  {
    hide Kept, Lo, Hi, Cut, DataOf, MetaOf, Idx, Cutting, Shape, Tight, Before, After, Exact, Trunc;
    OutsideSame(t.kids, kids, out, h, first, last, start, end, all);
    ExactWhole(t, out, h, first, last);
    TruncNil(t, h, first, last);
    CutWhole(t, kids, out, h, first, last, start, end, all);
    KeptWhole(t, out, fd, fm, Tight(t));
    ZeroedIsOut(t.kids, kids, out, h, first, last, start, end, all);
    NilHoldsNothing();
    NilShape(h);
  }

  lemma OutsideSame(kids0: seq<Tree>, kids: seq<Tree>, out: seq<Tree>, h: nat, first: nat, last: nat, start: nat,
                    end: int, all: bool)
    requires h > 0 && first <= last < Span(h)
    requires Cutting(kids0, kids, out, h, first, last, Idx(last, h) + 1, start, end, all)
    ensures |kids0| == FANOUT && |out| == FANOUT
    ensures forall j | 0 <= j < FANOUT && !(Idx(first, h) <= j <= Idx(last, h)) :: out[j] == kids0[j]
  {
    hide Cut, Shape;
  }

  lemma NilShape(h: nat)
    ensures Shape(Nil, h)
  {
  }

  /** One turn of its loop: a pointer to nothing, to a data block, or to a meta block that is
      truncated in turn and freed when empty. */
  method TruncateChild(k: Tree, h: nat, lo: nat, hi: nat)
    returns (c: Tree, count: nat, ghost d: multiset<nat>, ghost m: multiset<nat>)
    requires Shape(k, h) && lo <= hi < Span(h)
    ensures Shape(c, h) && Cut(k, c, h, lo, hi) && DataOf(k) == DataOf(c) + d && count == |d|
    ensures MetaOf(k) == MetaOf(c) + m
    ensures c == Trunc(k, h, lo, hi) && (c == Nil <==> Before(k, h, lo) && After(k, h, hi))
    ensures (IsFull(h, lo, hi) ==> c == Nil) && (Tight(k) ==> Tight(c))
    decreases h, 1
  {
    hide Cut, Tight;
    NilHoldsNothing();
    c, count, d, m := Nil, 0, multiset{}, multiset{};
    if k == Nil {
      CutNil(h, lo, hi);
    } else if h == 0 {
      CutLeaf(k.block, lo, hi);
      count, d := 1, multiset{k.block};
    } else {
      var empty;
      ghost var below;
      c, empty, count, d, below := TruncateBlocks(k, h, lo, hi);
      m := below + if empty then multiset{k.block} else multiset{};
    }
  }

  lemma NilHoldsNothing()
    ensures Tight(Nil) && DataOf(Nil) == multiset{} && MetaOf(Nil) == multiset{}
  {
  }

  lemma TightKid(t: Tree, i: nat)
    requires t.Meta? && i < |t.kids|
    ensures Tight(t) ==> Tight(t.kids[i])
  {
  }

  lemma BeginCutting(t: Tree, h: nat, first: nat, last: nat)
    requires t.Meta? && Shape(t, h) && first <= last < Span(h)
    ensures Cutting(t.kids, t.kids, t.kids, h, first, last, Idx(first, h), Idx(first, h), Idx(last, h), true)
    ensures Kept(t.kids, t.kids, multiset{}, multiset{}, Tight(t))
  {
    IndexOrder(first, last, h);
  }

  lemma Untouched(kids0: seq<Tree>, kids: seq<Tree>, out: seq<Tree>, h: nat, first: nat, last: nat, i: nat, start: nat,
                  end: int, all: bool)
    requires h > 0 && first <= last < Span(h) && i <= Idx(last, h)
    requires Cutting(kids0, kids, out, h, first, last, i, start, end, all)
    ensures i < |kids| == |out| == |kids0| && kids[i] == kids0[i] == out[i] && Shape(kids[i], h - 1)
  {
  }

  lemma CutWhole(t: Tree, kids: seq<Tree>, out: seq<Tree>, h: nat, first: nat, last: nat, start: nat, end: int,
                 all: bool)
    requires t.Meta? && Shape(t, h) && first <= last < Span(h)
    requires Cutting(t.kids, kids, out, h, first, last, Idx(last, h) + 1, start, end, all)
    ensures Shape(t.(kids := out), h) && Cut(t, t.(kids := out), h, first, last)
    ensures all && EmptyOutside(kids, Idx(first, h), Idx(last, h)) <==> forall i | 0 <= i < |out| :: out[i] == Nil
    ensures (forall i | 0 <= i < |out| :: out[i] == Nil) ==> Cut(t, Nil, h, first, last)
    ensures all && IsFull(h, first, last) ==> forall i | 0 <= i < |out| :: out[i] == Nil
  {
    hide Cut, Lo, Hi;
    IndexOrder(first, last, h);
    CutKids(t.block, t.kids, out, h, first, last);
    if forall i | 0 <= i < |out| :: out[i] == Nil { CutToNil(t.block, t.kids, out, h, first, last); }
    if IsFull(h, first, last) {
      var c := Span(h - 1);
      IdxOffOf(0, 0, h);
      IdxOffOf(FANOUT - 1, c - 1, h);
      assert 0 * c + 0 == 0 && (FANOUT - 1) * c + (c - 1) == FANOUT * c - 1;
    }
  }

  lemma KeptWhole(t: Tree, out: seq<Tree>, fd: multiset<nat>, fm: multiset<nat>, tight: bool)
    requires t.Meta? && Kept(t.kids, out, fd, fm, tight)
    ensures DataOf(t) == DataOf(t.(kids := out)) + fd && MetaOf(t) == MetaOf(t.(kids := out)) + fm
    ensures (forall i | 0 <= i < |out| :: out[i] == Nil) ==> DataOf(t) == fd && MetaOf(t) == fm + multiset{t.block}
    ensures tight && (exists i :: 0 <= i < |out| && out[i] != Nil) ==> Tight(t.(kids := out))
  {
    if forall i | 0 <= i < |out| :: out[i] == Nil { SumNils(out); }
  }
}
