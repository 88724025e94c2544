/** Allocation in the block tree of a PMFS inode (pmfs/inode.c). Blocks come from `supply`; an
    allocation that finds it empty fails. */
module PmfsGrow {
  import opened Division
  import opened PmfsTree

  /** What was mapped stays mapped as it was, nothing outside the range is new, and when all
      went well the whole range is mapped. */
  ghost predicate Grew(t: Tree, t': Tree, h: nat, first: nat, last: nat, ok: bool)
    requires Shape(t, h) && Shape(t', h)
  {
    forall n: nat | n < Span(h) ::
      && (Look(t, h, n) != 0 || !(first <= n <= last) ==> Look(t', h, n) == Look(t, h, n))
      && (ok && first <= n <= last ==> Look(t', h, n) != 0)
  }

  /** Blocks taken: `ud` for data, `um` for meta blocks. */
  ghost predicate Took(t: Tree, t': Tree, supply: seq<nat>, rest: seq<nat>, ud: multiset<nat>, um: multiset<nat>) {
    && DataOf(t') == DataOf(t) + ud && MetaOf(t') == MetaOf(t) + um
    && multiset(supply) == multiset(rest) + (ud + um) && (0 !in supply ==> 0 !in rest)
  }

  /** Every node of `t` is in `t'` too, at the same place. */
  ghost predicate Extends(t: Tree, t': Tree) {
    match t
    case Nil => true
    case Data(_) => t' == t
    case Meta(b, kids) =>
      && t'.Meta? && t'.block == b && |t'.kids| == |kids|
      && forall i | 0 <= i < |kids| :: Extends(kids[i], t'.kids[i])
  }

  lemma {:induction t} ExtendsSelf(t: Tree)
    ensures Extends(t, t)
  {
  }

  function EmptyMeta(b: nat): Tree { Meta(b, seq(FANOUT, _ => Nil)) }

  lemma EmptyMetaIs(b: nat, h: nat)
    requires h > 0 && b != 0
    ensures Shape(EmptyMeta(b), h) && DataOf(EmptyMeta(b)) == multiset{} && MetaOf(EmptyMeta(b)) == multiset{b}
    ensures forall n: nat | n < Span(h) :: Look(EmptyMeta(b), h, n) == 0
  {
    hide Idx, Off;
    SumNils(EmptyMeta(b).kids);
  }

  /** The loop of recursive_alloc_blocks before child `i`. */
  ghost predicate Growing(kids0: seq<Tree>, kids: seq<Tree>, h: nat, first: nat, last: nat, i: nat, ok: bool)
    requires h > 0 && first <= last < Span(h)
  {
    var lo, hi := Idx(first, h), Idx(last, h);
    && |kids0| == FANOUT && |kids| == FANOUT && lo <= i <= hi + 1
    && (forall j | 0 <= j < FANOUT :: Shape(kids0[j], h - 1) && Shape(kids[j], h - 1))
    && (forall j | lo <= j < i :: Grew(kids0[j], kids[j], h - 1, Lo(first, h, j), Hi(last, h, j), ok || j < i - 1))
    && (forall j | 0 <= j < FANOUT && !(lo <= j < i) :: kids[j] == kids0[j])
    && (forall j | 0 <= j < FANOUT :: Extends(kids0[j], kids[j]))
  }

  lemma GrewKids(b: nat, kids0: seq<Tree>, kids: seq<Tree>, h: nat, first: nat, last: nat, i: nat, ok: bool)
    requires h > 0 && b != 0 && first <= last < Span(h) && Growing(kids0, kids, h, first, last, i, ok)
    requires ok ==> i == Idx(last, h) + 1
    ensures Shape(Meta(b, kids0), h) && Shape(Meta(b, kids), h)
    ensures Grew(Meta(b, kids0), Meta(b, kids), h, first, last, ok)
    ensures Extends(Meta(b, kids0), Meta(b, kids))
  {
    hide Idx, Off, Lo, Hi;
    var t, t' := Meta(b, kids0), Meta(b, kids);
    forall n: nat | n < Span(h)
      ensures Look(t, h, n) != 0 || !(first <= n <= last) ==> Look(t', h, n) == Look(t, h, n)
      ensures ok && first <= n <= last ==> Look(t', h, n) != 0
    {
      RangeSplits(first, last, n, h);
      var j := Idx(n, h);
      if Idx(first, h) <= j < i {
        assert Grew(kids0[j], kids[j], h - 1, Lo(first, h, j), Hi(last, h, j), ok || j < i - 1);
      }
    }
  }

  lemma StepGrowing(kids0: seq<Tree>, kids: seq<Tree>, h: nat, first: nat, last: nat, i: nat, c: Tree, ok: bool)
    requires h > 0 && first <= last < Span(h) && i <= Idx(last, h) && Growing(kids0, kids, h, first, last, i, true)
    requires Shape(c, h - 1) && Grew(kids0[i], c, h - 1, Lo(first, h, i), Hi(last, h, i), ok) && Extends(kids0[i], c)
    ensures Growing(kids0, kids[i := c], h, first, last, i + 1, ok)
  {
    hide Grew, Shape, Idx, Lo, Hi, Extends;
    var kids' := kids[i := c];
    var next := i + 1;
    forall j | Idx(first, h) <= j < next
      ensures Grew(kids0[j], kids'[j], h - 1, Lo(first, h, j), Hi(last, h, j), ok || j < next - 1)
    {
      if j < i { assert Grew(kids0[j], kids[j], h - 1, Lo(first, h, j), Hi(last, h, j), true || j < i - 1); }
    }
  }

  ghost predicate TookSum(kids0: seq<Tree>, kids: seq<Tree>, supply: seq<nat>, rest: seq<nat>, ud: multiset<nat>,
                          um: multiset<nat>) {
    && DataSum(kids) == DataSum(kids0) + ud && MetaSum(kids) == MetaSum(kids0) + um
    && multiset(supply) == multiset(rest) + (ud + um) && (0 !in supply ==> 0 !in rest)
  }

  lemma StepTook(kids0: seq<Tree>, kids: seq<Tree>, supply: seq<nat>, rest: seq<nat>, ud: multiset<nat>,
                 um: multiset<nat>,
                 i: nat, c: Tree, rest': seq<nat>, d: multiset<nat>, m: multiset<nat>)
    requires TookSum(kids0, kids, supply, rest, ud, um) && i < |kids| && Took(kids[i], c, rest, rest', d, m)
    ensures TookSum(kids0, kids[i := c], supply, rest', ud + d, um + m)
  {
    hide DataSum, MetaSum, DataOf, MetaOf;
    DataUpdate(kids, i, c);
    MetaUpdate(kids, i, c);
    Gain(DataSum(kids0), DataSum(kids), DataSum(kids[i := c]), ud, DataOf(kids[i]), DataOf(c), d);
    Gain(MetaSum(kids0), MetaSum(kids), MetaSum(kids[i := c]), um, MetaOf(kids[i]), MetaOf(c), m);
    assert (d + m) + (ud + um) == (ud + d) + (um + m);
    assert multiset(supply) == (multiset(rest') + (d + m)) + (ud + um);
  }

  lemma Gain(all: multiset<nat>, out: multiset<nat>, out': multiset<nat>, u: multiset<nat>, was: multiset<nat>,
             now: multiset<nat>, d: multiset<nat>)
    requires out == all + u && out' + was == out + now && now == was + d
    ensures out' == all + (u + d)
  {
    assert (out' + was) - was == out' && ((out + d) + was) - was == out + d;
    assert out + now == (out + d) + was;
  }

  /** recursive_alloc_blocks on a meta block. */
  method AllocBlocks(t: Tree, h: nat, first: nat, last: nat, supply: seq<nat>)
    returns (t': Tree, rest: seq<nat>, ok: bool, count: nat, ghost ud: multiset<nat>, ghost um: multiset<nat>)
    requires t.Meta? && Shape(t, h) && first <= last < Span(h) && 0 !in supply
    ensures t'.Meta? && t'.block == t.block && Shape(t', h) && Grew(t, t', h, first, last, ok)
    ensures Took(t, t', supply, rest, ud, um)
    ensures (!ok ==> rest == []) && count == |ud| && Extends(t, t') && |supply| <= |rest| + (last - first + 1) * h
    decreases h, 0
  {
    hide Extends, Grew, Growing, TookSum, Shape, DataOf, MetaOf, Idx, Off, Lo, Hi, Done, Span;
    MetaFacts(t, h, first, last);
    var kids, lo, hi := t.kids, Idx(first, h), Idx(last, h);
    rest, ok, count, ud, um := supply, true, 0, multiset{}, multiset{};
    var i := lo;
    NoneDone(first, last, h);
    BeginGrowing(t, h, first, last, supply);
    while i <= hi && ok
      invariant lo <= i <= hi + 1 && count == |ud| && 0 !in rest && (!ok ==> rest == [])
      invariant Growing(t.kids, kids, h, first, last, i, ok)
      invariant TookSum(t.kids, kids, supply, rest, ud, um)
      invariant |supply| <= |rest| + Done(first, last, h, i) * h
    {
      GrowHere(t.kids, kids, h, first, last, i);
      PartOrder(first, last, h, i);
      PartDone(first, last, h, i);
      var c, rest', ok', more;
      ghost var d, m;
      c, rest', ok', more, d, m := AllocChild(kids[i], h - 1, Lo(first, h, i), Hi(last, h, i), rest);
      StepGrowing(t.kids, kids, h, first, last, i, c, ok');
      StepTook(t.kids, kids, supply, rest, ud, um, i, c, rest', d, m);
      kids := kids[i := c];
      rest, ok, count, ud, um := rest', ok', count + more, ud + d, um + m;
      i := i + 1;
    }
    AllDone(first, last, h, i);
    t' := t.(kids := kids);
    GrewKids(t.block, t.kids, kids, h, first, last, i, ok);
    TookWhole(t, kids, supply, rest, ud, um);
  }

  /** One turn of its loop: a data block or a meta block is allocated where there is none. */
  method AllocChild(k: Tree, h: nat, lo: nat, hi: nat, supply: seq<nat>)
    returns (c: Tree, rest: seq<nat>, ok: bool, count: nat, ghost d: multiset<nat>, ghost m: multiset<nat>)
    requires Shape(k, h) && lo <= hi < Span(h) && 0 !in supply
    ensures Shape(c, h) && Grew(k, c, h, lo, hi, ok) && Took(k, c, supply, rest, d, m) && 0 !in rest
    ensures (!ok ==> rest == []) && count == |d| && Extends(k, c) && |supply| <= |rest| + (hi - lo + 1) * (h + 1)
    decreases h, 1
  {
    hide Grew, DataOf, MetaOf, Shape, Look;
    OneMore(hi - lo, h);
    if k == Nil && supply == [] {
      NotGrown(k, h, lo, hi);
      return k, supply, false, 0, multiset{}, multiset{};
    }
    var node, left := k, supply;
    ghost var first := multiset{};
    if k == Nil {
      node := if h == 0 then Data(supply[0]) else EmptyMeta(supply[0]);
      left := supply[1..];
      first := multiset{supply[0]};
    }
    NodeThere(k, h, supply);
    ExtendsSelf(k);
    if h == 0 {
      GrewData(k, node, lo, hi);
      c, rest, ok, d, m := node, left, true, first, multiset{};
      count := if k == Nil then 1 else 0;
    } else {
      ghost var bm;
      c, rest, ok, count, d, bm := AllocBlocks(node, h, lo, hi, left);
      m := bm + first;
      GrewFrom(k, node, c, h, lo, hi, ok);
      TookTwice(k, node, c, supply, left, rest, first, d, bm);
    }
  }

  /** The node under a pointer, new when there was none. */
  function NodeFor(k: Tree, h: nat, supply: seq<nat>): Tree
    requires k == Nil ==> supply != []
  {
    if k == Nil then (if h == 0 then Data(supply[0]) else EmptyMeta(supply[0])) else k
  }

  lemma NodeThere(k: Tree, h: nat, supply: seq<nat>)
    requires Shape(k, h) && (k == Nil ==> supply != []) && 0 !in supply
    ensures var node := NodeFor(k, h, supply);
            var left := if k == Nil then supply[1..] else supply;
            var first := if k == Nil then multiset{supply[0]} else multiset{};
            && Shape(node, h) && 0 !in left && (if h == 0 then node.Data? else node.Meta?)
            && Took(k, node, supply, left, if h == 0 then first else multiset{}, if h == 0 then multiset{} else first)
            && (node == k || (k == Nil && (h > 0 ==> forall n: nat | n < Span(h) :: Look(node, h, n) == 0)))
  {
    hide Look;
    if k == Nil {
      assert supply == [supply[0]] + supply[1..];
      assert supply[0] != 0;
      if h > 0 { EmptyMetaIs(supply[0], h); }
    }
  }

  lemma TookTwice(k: Tree, node: Tree, c: Tree, supply: seq<nat>, left: seq<nat>, rest: seq<nat>, first: multiset<nat>,
                  d: multiset<nat>, bm: multiset<nat>)
    requires Took(k, node, supply, left, multiset{}, first) && Took(node, c, left, rest, d, bm)
    ensures Took(k, c, supply, rest, d, bm + first)
  {
    hide DataOf, MetaOf;
    assert (d + bm) + first == d + (bm + first);
    assert multiset(supply) == multiset(rest) + ((d + bm) + first);
    assert MetaOf(c) == MetaOf(k) + (first + bm);
  }

  lemma NotGrown(k: Tree, h: nat, lo: nat, hi: nat)
    requires Shape(k, h)
    ensures Grew(k, k, h, lo, hi, false)
  {
  }

  lemma GrewData(k: Tree, c: Tree, lo: nat, hi: nat)
    requires Shape(k, 0) && Shape(c, 0) && c.Data? && (k != Nil ==> c == k) && lo == 0
    ensures Grew(k, c, 0, lo, hi, true)
  {
    assert Span(0) == 1;
  }

  lemma GrewFrom(k: Tree, node: Tree, c: Tree, h: nat, lo: nat, hi: nat, ok: bool)
    requires Shape(k, h) && Shape(node, h) && Shape(c, h) && Grew(node, c, h, lo, hi, ok)
    requires node == k || (k == Nil && forall n: nat | n < Span(h) :: Look(node, h, n) == 0)
    ensures Grew(k, c, h, lo, hi, ok)
  {
    hide Idx, Off;
    if node != k {
      forall n: nat | n < Span(h)
        ensures Look(k, h, n) != 0 || !(lo <= n <= hi) ==> Look(c, h, n) == Look(k, h, n)
        ensures ok && lo <= n <= hi ==> Look(c, h, n) != 0
      {
        assert Look(node, h, n) == 0 == Look(k, h, n);
      }
    }
  }

  lemma MetaFacts(t: Tree, h: nat, first: nat, last: nat)
    requires t.Meta? && Shape(t, h) && first <= last < Span(h)
    ensures h > 0 && t.block != 0 && |t.kids| == FANOUT && Idx(first, h) <= Idx(last, h)
  {
    IndexOrder(first, last, h);
  }

  lemma BeginGrowing(t: Tree, h: nat, first: nat, last: nat, supply: seq<nat>)
    requires t.Meta? && Shape(t, h) && first <= last < Span(h)
    ensures Growing(t.kids, t.kids, h, first, last, Idx(first, h), true)
    ensures TookSum(t.kids, t.kids, supply, supply, multiset{}, multiset{})
  {
    IndexOrder(first, last, h);
    forall j | 0 <= j < FANOUT ensures Extends(t.kids[j], t.kids[j]) { ExtendsSelf(t.kids[j]); }
  }

  /** How many file blocks of the range lie below the children before `i`. */
  function Done(first: nat, last: nat, h: nat, i: nat): int
    requires h > 0 && first <= last < Span(h)
  {
    if i <= Idx(first, h) then 0 else if i <= Idx(last, h) then i * Span(h - 1) - first else last - first + 1
  }

  lemma PartDone(first: nat, last: nat, h: nat, i: nat)
    requires h > 0 && first <= last < Span(h) && Idx(first, h) <= i <= Idx(last, h)
    ensures Done(first, last, h, i + 1) * h == Done(first, last, h, i) * h + (Hi(last, h, i) - Lo(first, h, i) + 1) * h
  {
    hide Idx, Off;
    IdxOff(first, h);
    IdxOff(last, h);
    var c, part := Span(h - 1), Hi(last, h, i) - Lo(first, h, i) + 1;
    assert (i + 1) * c == i * c + c;
    assert Done(first, last, h, i + 1) == Done(first, last, h, i) + part;
    Distribute(Done(first, last, h, i), part, h);
  }

  lemma Distribute(a: int, b: int, h: nat)
    ensures (a + b) * h == a * h + b * h
  {
  }

  lemma NoneDone(first: nat, last: nat, h: nat)
    requires h > 0 && first <= last < Span(h)
    ensures Done(first, last, h, Idx(first, h)) * h == 0
  {
  }

  lemma AllDone(first: nat, last: nat, h: nat, i: nat)
    requires h > 0 && first <= last < Span(h) && Idx(first, h) <= i <= Idx(last, h) + 1
    ensures Done(first, last, h, i) * h <= (last - first + 1) * h
  {
    hide Idx, Off;
    IdxOff(first, h);
    IdxOff(last, h);
    if Idx(first, h) < i <= Idx(last, h) { Grows(Idx(last, h), i, Span(h - 1)); }
    Grows(last - first + 1, if Done(first, last, h, i) < 0 then 0 else Done(first, last, h, i), h);
    if Done(first, last, h, i) < 0 { assert Done(first, last, h, i) * h <= 0; }
  }

  lemma OneMore(n: nat, h: nat)
    ensures (n + 1) * (h + 1) == (n + 1) * h + n + 1
  {
  }

  lemma GrowHere(kids0: seq<Tree>, kids: seq<Tree>, h: nat, first: nat, last: nat, i: nat)
    requires h > 0 && first <= last < Span(h) && i <= Idx(last, h) && Growing(kids0, kids, h, first, last, i, true)
    ensures i < |kids| == |kids0| && kids[i] == kids0[i] && Shape(kids[i], h - 1)
  {
  }

  lemma TookWhole(t: Tree, kids: seq<Tree>, supply: seq<nat>, rest: seq<nat>, ud: multiset<nat>, um: multiset<nat>)
    requires t.Meta? && TookSum(t.kids, kids, supply, rest, ud, um)
    ensures Took(t, t.(kids := kids), supply, rest, ud, um)
  {
    assert multiset{t.block} + (MetaSum(t.kids) + um) == (multiset{t.block} + MetaSum(t.kids)) + um;
  }
}
