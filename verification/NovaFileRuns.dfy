/** Runs of a NOVA file in which garbage collection drops log entries between writes, truncates
    and other operations (nova/log.c, nova/gc.c). */
module NovaFileRuns {
  import opened NovaFileIndex
  import opened NovaLogPages

  /** The log, the tree, and which entries were logged without a change of size: those are the
      ones that can be invalidated. */
  datatype File = File(c: seq<Entry>, soft: seq<bool>, free: set<int>, retained: set<int>, tree: Tree)

  function BooksOf(f: File): Books { Books(Plain(f.c), f.free, f.retained) }

  /** `s` without its element `i`. */
  function Less<T>(s: seq<T>, i: nat): (r: seq<T>)
    requires i < |s|
    ensures |r| == |s| - 1 && forall k | 0 <= k < |r| :: r[k] == s[if k < i then k else k + 1]
  {
    s[..i] + s[i + 1..]
  }

  function Down(k: nat, i: nat): nat { if k > i then k - 1 else k }

  /** The tree after entry `i` is dropped. */
  function Shift(tree: Tree, i: nat): (t: Tree)
    ensures t.Keys == tree.Keys && forall p | p in tree :: t[p] == Down(tree[p], i)
  {
    map p | p in tree :: Down(tree[p], i)
  }

  datatype FileOp = Do(op: Op) | Invalidate(j: nat) | Collect(i: nat)

  ghost predicate Grown(f: File, f': File, soft: bool) {
    && |f'.c| == |f.c| + 1 && f'.soft == f.soft + [soft] && !f'.c[|f.c|].stale
    && forall i | 0 <= i < |f.c| :: f'.c[i].stale == f.c[i].stale
  }

  /** An operation on the file; nova_invalidate_setattr_entry or
      nova_invalidate_link_change_entry; or the drop of one invalid entry. */
  ghost predicate FileStep(f: File, f': File, o: FileOp, exact: bool) {
    match o
    case Do(op) => Stepped(BooksOf(f), f.tree, BooksOf(f'), f'.tree, op, exact) && Grown(f, f', op.DoOther?)
    case Invalidate(j) => j < |f.c| == |f.soft| && f.soft[j] && f' == f.(c := f.c[j := f.c[j].(stale := true)])
    case Collect(i) =>
      && i < |f.c| == |f.soft| && Drop(f.c[i])
      && f' == f.(c := Less(f.c, i), soft := Less(f.soft, i), tree := Shift(f.tree, i))
  }

  // --------------------------------------------------------------- invariant

  /** A set-attribute entry logged without a change of size cuts nothing off. */
  ghost predicate CutsNothing(log: seq<Ent>, j: nat)
    requires j < |log|
  {
    log[j].SetAttr? ==> forall p: nat | log[j].first <= p :: Last(log[..j], p, false) == Nobody
  }

  ghost predicate SoftOK(f: File) {
    && |f.soft| == |f.c|
    && (forall j | 0 <= j < |f.c| && f.soft[j] :: !f.c[j].e.Write? && CutsNothing(Plain(f.c), j))
    && (forall j | 0 <= j < |f.c| && f.c[j].stale :: f.soft[j])
  }

  ghost predicate Good(f: File, all: set<int>, exact: bool) { Consistent(BooksOf(f), f.tree, all, exact) && SoftOK(f) }

  // ------------------------------------------------------ dropping one entry

  /** Dropping an entry that is not the last on page `p`, and cuts nothing off, keeps the last. */
  lemma {:induction false} LastLess(log: seq<Ent>, i: nat, p: nat)
    requires i < |log| && Last(log, p, false) != By(i) && CutsNothing(log, i)
    ensures var o := Last(log, p, false);
            Last(Less(log, i), p, false) == if o.By? then By(Down(o.i, i)) else Nobody
    decreases |log|
  {
    var n := |log| - 1;
    if i == n {
      assert Less(log, i) == log[..n];
    } else {
      assert Less(log, i)[..n - 1] == Less(log[..n], i) && Less(log, i)[n - 1] == log[n];
      if !Holds(log[n], p) && !(log[n].SetAttr? && log[n].first <= p) {
        assert log[..n][..i] == log[..i];
        LastLess(log[..n], i, p);
      }
    }
  }

  lemma {:induction false} CountShift(tree: Tree, lo: nat, hi: nat, i: nat, k: nat)
    requires lo <= hi && k != i && forall p | p in tree :: tree[p] != i
    ensures Count(Shift(tree, i), lo, hi, Down(k, i)) == Count(tree, lo, hi, k)
    decreases hi - lo
  {
    if lo < hi { CountShift(tree, lo + 1, hi, i, k); }
  }

  /** No page is mapped to an entry that may be dropped. */
  lemma DropUnmapped(f: File, all: set<int>, exact: bool, i: nat)
    requires Good(f, all, exact) && i < |f.c| && Drop(f.c[i])
    ensures CutsNothing(Plain(f.c), i)
    ensures forall p | p in f.tree :: f.tree[p] != i
  {
    hide Count, Counted, Partition, NoHole;
    forall p | p in f.tree ensures f.tree[p] != i { DeadIsUnmapped(BooksOf(f), f.tree, all, exact, p); }
  }

  lemma LessReplays(log: seq<Ent>, tree: Tree, i: nat)
    requires Replays(tree, log, false) && i < |log| && CutsNothing(log, i) && forall p | p in tree :: tree[p] != i
    ensures Replays(Shift(tree, i), Less(log, i), false)
  {
    var t, l := Shift(tree, i), Less(log, i);
    forall p: nat ensures (p in t <==> Last(l, p, false).By?) && (p in t ==> Last(l, p, false) == By(t[p])) {
      assert p in tree <==> Last(log, p, false).By?;
      LastLess(log, i, p);
    }
  }

  lemma LessCounted(log: seq<Ent>, tree: Tree, i: nat, exact: bool)
    requires Counted(log, tree, exact) && i < |log| && forall p | p in tree :: tree[p] != i
    ensures Counted(Less(log, i), Shift(tree, i), exact)
  {
    hide Count;
    var l := Less(log, i);
    forall k | 0 <= k < |l| && l[k].Write? ensures EntCounted(l[k], Shift(tree, i), k, exact) {
      var was := if k < i then k else k + 1;
      assert EntCounted(log[was], tree, was, exact);
      CountShift(tree, l[k].pgoff, l[k].pgoff + l[k].num, i, was);
    }
  }

  lemma LessPartition(b: Books, tree: Tree, all: set<int>, i: nat)
    requires Points(b.log, tree) && Partition(b, tree, all) && i < |b.log| && forall p | p in tree :: tree[p] != i
    ensures Points(Less(b.log, i), Shift(tree, i)) && Partition(b.(log := Less(b.log, i)), Shift(tree, i), all)
  {
    var t, l := Shift(tree, i), Less(b.log, i);
    forall p | p in t ensures t[p] < |l| && Holds(l[t[p]], p) && BlockAt(l, t, p) == BlockAt(b.log, tree, p) {}
    forall x | x in all - b.free - b.retained ensures MapsTo(l, t, x) {
      assert MapsTo(b.log, tree, x);
      var p :| p in tree && BlockAt(b.log, tree, p) == x;
      assert BlockAt(l, t, p) == x;
    }
  }

  lemma LessCuts(log: seq<Ent>, i: nat, j: nat)
    requires i < |log| && j < |log| - 1 && CutsNothing(log, i)
    requires CutsNothing(log, if j < i then j else j + 1)
    ensures CutsNothing(Less(log, i), j)
  {
    var l := Less(log, i);
    if l[j].SetAttr? {
      forall p: nat | l[j].first <= p ensures Last(l[..j], p, false) == Nobody {
        if j < i {
          assert l[..j] == log[..j];
        } else {
          assert l[..j] == Less(log[..j + 1], i) && log[..j + 1][..i] == log[..i];
          LastLess(log[..j + 1], i, p);
        }
      }
    }
  }

  lemma CollectKeeps(f: File, f': File, i: nat, all: set<int>, exact: bool)
    requires Good(f, all, exact) && FileStep(f, f', Collect(i), exact)
    ensures Good(f', all, exact)
  {
    hide Count, Counted, Partition, NoHole, Replays, Points, CutsNothing;
    var log := Plain(f.c);
    DropUnmapped(f, all, exact, i);
    assert Plain(f'.c) == Less(log, i);
    LessReplays(log, f.tree, i);
    LessCounted(log, f.tree, i, exact);
    LessPartition(BooksOf(f), f.tree, all, i);
    LessNoHole(f.tree, i);
    forall j | 0 <= j < |f'.c| && f'.soft[j] ensures !f'.c[j].e.Write? && CutsNothing(Plain(f'.c), j) {
      LessCuts(log, i, j);
    }
  }

  lemma LessNoHole(tree: Tree, i: nat)
    requires NoHole(tree) && forall p | p in tree :: tree[p] != i
    ensures NoHole(Shift(tree, i))
  {
  }

  // ----------------------------------------------------------- the other steps

  lemma DoOps(f: File, f': File, op: Op, exact: bool)
    requires Stepped(BooksOf(f), f.tree, BooksOf(f'), f'.tree, op, exact) && Grown(f, f', op.DoOther?)
    ensures SameOps(Plain(f.c), Plain(f'.c)[..|f.c|])
    ensures op.DoOther? ==> Plain(f'.c)[|f.c|] == op.e && Plain(f'.c)[..|f.c|] == Plain(f.c)
  {
    hide Charged, Shed, Count;
    var b, b' := BooksOf(f), BooksOf(f');
    match op
    case DoWrite(e, keep) => SettledOps(b', Appended(b, e), f.tree, e.pgoff, e.pgoff + e.num, true, keep);
    case DoTruncate(first, top, keep) =>
      SettledOps(b', b.(log := b.log + [SetAttr(first)]), f.tree, first, top, true, keep);
    case DoOther(e) =>
  }

  lemma CutsSameOps(log: seq<Ent>, log': seq<Ent>, j: nat)
    requires j < |log| && CutsNothing(log, j) && |log| <= |log'| && SameOps(log, log'[..|log|])
    ensures CutsNothing(log', j)
  {
    assert SameOp(log[j], log'[..|log|][j]);
    forall p: nat ensures Last(log[..j], p, false) == Last(log'[..j], p, false) {
      assert SameOps(log[..j], log'[..j]) by { assert log'[..j] == log'[..|log|][..j]; }
      LastSameOps(log[..j], log'[..j], p);
    }
  }

  lemma DoKeeps(f: File, f': File, op: Op, all: set<int>, exact: bool)
    requires Good(f, all, exact) && FileStep(f, f', Do(op), exact)
    ensures Good(f', all, exact)
  {
    hide Stepped, Consistent, CutsNothing, SameOps;
    StepKeeps(BooksOf(f), f.tree, BooksOf(f'), f'.tree, op, all, exact);
    DoOps(f, f', op, exact);
    forall j | 0 <= j < |f'.c| && f'.soft[j] ensures !f'.c[j].e.Write? && CutsNothing(Plain(f'.c), j) {
      if j < |f.c| {
        CutsSameOps(Plain(f.c), Plain(f'.c), j);
        SameKind(Plain(f.c), Plain(f'.c), j);
      } else {
        HarmlessCuts(f, f', op, all, exact);
      }
    }
  }

  lemma SameKind(log: seq<Ent>, log': seq<Ent>, j: nat)
    requires |log| <= |log'| && SameOps(log, log'[..|log|]) && j < |log|
    ensures log[j].Write? <==> log'[j].Write?
  {
    assert SameOp(log[j], log'[..|log|][j]);
  }

  lemma HarmlessCuts(f: File, f': File, op: Op, all: set<int>, exact: bool)
    requires Good(f, all, exact) && FileStep(f, f', Do(op), exact) && op.DoOther?
    ensures !f'.c[|f.c|].e.Write? && CutsNothing(Plain(f'.c), |f.c|)
  {
    hide Count, Counted, Partition, NoHole;
    DoOps(f, f', op, exact);
    assert f'.c[|f.c|].e == op.e && Harmless(op.e, f.tree);
    if op.e.SetAttr? {
      forall p: nat | op.e.first <= p ensures Last(Plain(f.c), p, false) == Nobody { assert p !in f.tree; }
    }
  }

  lemma InvalidateKeeps(f: File, f': File, j: nat, all: set<int>, exact: bool)
    requires Good(f, all, exact) && FileStep(f, f', Invalidate(j), exact)
    ensures Good(f', all, exact)
  {
    hide Consistent, CutsNothing;
    assert Plain(f'.c) == Plain(f.c);
  }

  // --------------------------------------------------------------- whole runs

  ghost predicate IsFileRun(run: seq<File>, ops: seq<FileOp>, all: set<int>, exact: bool) {
    && |run| == |ops| + 1 && run[0] == File([], [], all, {}, map[])
    && forall i | 0 <= i < |ops| :: FileStep(run[i], run[i + 1], ops[i], exact)
  }

  lemma {:induction false} FileRunGood(run: seq<File>, ops: seq<FileOp>, all: set<int>, exact: bool, k: nat)
    requires IsFileRun(run, ops, all, exact) && k < |run|
    ensures Good(run[k], all, exact)
  {
    hide Good, FileStep;
    if k == 0 {
      EmptyGood(all, exact);
    } else {
      FileRunGood(run, ops, all, exact, k - 1);
      match ops[k - 1]
      case Do(op) => DoKeeps(run[k - 1], run[k], op, all, exact);
      case Invalidate(j) => InvalidateKeeps(run[k - 1], run[k], j, all, exact);
      case Collect(i) => CollectKeeps(run[k - 1], run[k], i, all, exact);
    }
  }

  lemma EmptyGood(all: set<int>, exact: bool)
    ensures Good(File([], [], all, {}, map[]), all, exact)
  {
  }

  /** In every run with collection between the operations, the live tree is the one that
      replaying the log yields, with or without the dead entries, every data block is mapped, kept
      or free, and an invalidated set-attribute entry cuts nothing off. */
  lemma CollectedRunIsReplay(run: seq<File>, ops: seq<FileOp>, all: set<int>, exact: bool, k: nat)
    requires IsFileRun(run, ops, all, exact) && k < |run|
    ensures var f := run[k];
            && Replays(f.tree, Plain(f.c), false) && Replays(f.tree, Plain(f.c), true)
            && Points(Plain(f.c), f.tree) && Partition(BooksOf(f), f.tree, all) && StaleOK(f.c)
  {
    FileRunGood(run, ops, all, exact, k);
    GoodReplays(run[k], all, exact);
    GoodStale(run[k], all, exact);
  }

  lemma GoodReplays(f: File, all: set<int>, exact: bool)
    requires Good(f, all, exact)
    ensures Replays(f.tree, Plain(f.c), true)
  {
    hide Count, Counted, Partition, NoHole, Replays;
    forall p | p in f.tree ensures f.tree[p] < |f.c| && !Dead(Plain(f.c)[f.tree[p]]) {
      DeadIsUnmapped(BooksOf(f), f.tree, all, exact, p);
    }
    SkippingIsSound(f.tree, Plain(f.c));
  }

  lemma GoodStale(f: File, all: set<int>, exact: bool)
    requires Good(f, all, exact)
    ensures StaleOK(f.c)
  {
    hide Consistent;
    forall j, p: nat | 0 <= j < |f.c| && f.c[j].stale && f.c[j].e.SetAttr? && f.c[j].e.first <= p
      ensures BlockOf(f.c[..j], p) == 0
    {
      assert CutsNothing(Plain(f.c), j);
      assert Plain(f.c)[..j] == Plain(f.c[..j]);
      LastSkips(Plain(f.c[..j]), p);
      BlockOfIsMapped(f.c[..j], p);
    }
  }

  /** However the log lies in pages, a tree of entry addresses that follows the live tree is
      right: what the collectors start from. */
  lemma PagedTreeOK(f: File, all: set<int>, exact: bool, h: Heap, chain: seq<nat>, at: nat -> Addr)
    requires Good(f, all, exact) && In(h, chain) && Content(h, chain) == f.c
    requires forall k | 0 <= k < |f.c| :: ValidAddr(h, chain, at(k)) && h[at(k).page].ents[at(k).idx] == f.c[k]
    ensures TreeOK(h, chain, map p | p in f.tree :: at(f.tree[p]))
  {
    hide Count, Counted, Partition, NoHole, Content;
    GoodReplays(f, all, exact);
    forall p: nat
        ensures BlockOf(f.c, p) == (if p in f.tree then f.c[f.tree[p]].e.block + (p - f.c[f.tree[p]].e.pgoff) else 0)
                  ensures p in f.tree ==> f.tree[p] < |f.c| && Holds(f.c[f.tree[p]].e, p) && !Dead(f.c[f.tree[p]].e)
    {
      BlockOfIsMapped(f.c, p);
      assert p in f.tree <==> Last(Plain(f.c), p, true).By?;
    }
  }

  // ---------------------------------------------- collections are runs of drops

  /** `c'` comes from `c` by dropping invalid entries one at a time. */
  ghost predicate DropsTo(c: seq<Entry>, c': seq<Entry>)
    decreases |c|
  {
    c == c' || exists i :: 0 <= i < |c| && Drop(c[i]) && DropsTo(Less(c, i), c')
  }

  lemma {:induction false} DropsSnoc(c: seq<Entry>, c': seq<Entry>, g: Entry)
    requires DropsTo(c, c')
    ensures DropsTo(c + [g], c' + [g])
    decreases |c|
  {
    if c != c' {
      var i :| 0 <= i < |c| && Drop(c[i]) && DropsTo(Less(c, i), c');
      DropsSnoc(Less(c, i), c', g);
      assert Less(c + [g], i) == Less(c, i) + [g];
      assert (c + [g])[i] == c[i];
    }
  }

  /** What either collector leaves of the log, a run of drops leaves. */
  lemma {:induction false} ThinByDrops(c': seq<Entry>, c: seq<Entry>)
    requires Thin(c', c)
    ensures DropsTo(c, c')
    decreases |c|
  {
    if c != [] {
      var n := |c| - 1;
      if c' != [] && c'[|c'| - 1] == c[n] && Thin(c'[..|c'| - 1], c[..n]) {
        ThinByDrops(c'[..|c'| - 1], c[..n]);
        DropsSnoc(c[..n], c'[..|c'| - 1], c[n]);
        assert c == c[..n] + [c[n]] && c' == c'[..|c'| - 1] + [c[n]];
      } else {
        ThinByDrops(c', c[..n]);
        assert Less(c, n) == c[..n];
      }
    }
  }
}
