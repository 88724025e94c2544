/** Runs of a NOVA file whose log lies in pages with entry counters (nova/log.c, nova/nova.h,
    nova/gc.c): operations on the file, invalidation of superseded entries, and both kinds of
    garbage collection, which go by the counters. */
module NovaPagedRuns {
  import opened NovaFileIndex
  import opened NovaLogPages
  import opened NovaFileRuns

  /** A log page with its two counters. */
  datatype LogPage = LogPage(ents: seq<Entry>, num: nat, inv: nat)

  datatype PagedFile = PagedFile(pages: seq<LogPage>, soft: seq<bool>, free: set<int>, retained: set<int>, tree: Tree)

  function Flat(pages: seq<LogPage>): seq<Entry> {
    if pages == [] then [] else Flat(pages[..|pages| - 1]) + pages[|pages| - 1].ents
  }

  function FileOf(f: PagedFile): File { File(Flat(f.pages), f.soft, f.free, f.retained, f.tree) }

  /** The place in the log of the first entry of page `k`. */
  function Off(pages: seq<LogPage>, k: nat): nat
    requires k <= |pages|
  {
    |Flat(pages[..k])|
  }

  predicate PageRight(g: LogPage) { g.num == |g.ents| && g.inv == Drops(g.ents) }

  ghost predicate CountersRight(pages: seq<LogPage>) { forall k | 0 <= k < |pages| :: PageRight(pages[k]) }

  /** Entries that become invalid. */
  function Newly(was: seq<Entry>, now: seq<Entry>): nat
    requires |was| <= |now|
  {
    if was == [] then 0
    else
      var n := |was| - 1;
      Newly(was[..n], now[..n]) + if Drop(now[n]) && !Drop(was[n]) then 1 else 0
  }

  // ------------------------------------------------------------------- steps

  datatype PagedOp =
    | OnFile(op: Op, turn: bool)       // `turn`: the entry goes to a new page
    | Supersede(k: nat, i: nat)        // entry `i` of page `k`
    | DropPage(k: nat)                 // fast collection
    | Rewrite(anew: seq<LogPage>)     // thorough collection

  /** A page whose entries an operation may have charged; nova_inc_page_invalid_entries counts
      each that becomes invalid. */
  ghost predicate Recounted(g: LogPage, g': LogPage) {
    |g'.ents| == |g.ents| && g'.num == g.num && g'.inv == g.inv + Newly(g.ents, g'.ents)
  }

  /** The page that also takes the new entry. */
  ghost predicate Extended(g: LogPage, g': LogPage) {
    |g'.ents| == |g.ents| + 1 && g'.num == g.num + 1 && g'.inv == g.inv + Newly(g.ents, g'.ents)
  }

  function Turned(pages: seq<LogPage>, turn: bool): seq<LogPage> {
    if turn || pages == [] then pages + [LogPage([], 0, 0)] else pages
  }

  /** What is left of a file when `n` entries from place `at` on are dropped. */
  function Removed(f: File, at: nat, n: nat): File
    requires at + n <= |f.c| == |f.soft|
  {
    File(f.c[..at] + f.c[at + n..], f.soft[..at] + f.soft[at + n..], f.free, f.retained,
         map p | p in f.tree :: if f.tree[p] >= at + n then f.tree[p] - n else f.tree[p])
  }

  /** Drops of single entries lead from `f` to `f'`. */
  ghost predicate CollectsTo(f: File, f': File, exact: bool)
    decreases |f.c|
  {
    f == f' || exists i: nat, g: File :: |g.c| < |f.c| && FileStep(f, g, Collect(i), exact) && CollectsTo(g, f', exact)
  }

  ghost predicate PagedStep(f: PagedFile, f': PagedFile, o: PagedOp, exact: bool) {
    match o
    case OnFile(op, turn) =>
      var pages := Turned(f.pages, turn);
      && FileStep(FileOf(f), FileOf(f'), Do(op), exact) && (op.DoWrite? ==> op.e.Write? && op.e.num > 0)
      && |f'.pages| == |pages|
      && (forall k | 0 <= k < |pages| - 1 :: Recounted(pages[k], f'.pages[k]))
      && Extended(pages[|pages| - 1], f'.pages[|pages| - 1])
    case Supersede(k, i) =>
      && k < |f.pages| && i < |f.pages[k].ents| && Off(f.pages, k) + i < |f.soft| && f.soft[Off(f.pages, k) + i]
      && !f.pages[k].ents[i].stale
      && var g := f.pages[k];
         f' == f.(pages := f.pages[k := LogPage(g.ents[i := g.ents[i].(stale := true)], g.num, g.inv + 1)])
    case DropPage(k) =>
      // by the counters, and never the tail page
      && k + 1 < |f.pages| && f.pages[k].inv == f.pages[k].num
      && f'.pages == f.pages[..k] + f.pages[k + 1..]
      && Off(f.pages, k) + |f.pages[k].ents| <= |Flat(f.pages)| == |f.soft|
      && FileOf(f') == Removed(FileOf(f), Off(f.pages, k), |f.pages[k].ents|)
    case Rewrite(anew) =>
      && |f.pages| > 1 && f'.pages == anew + [f.pages[|f.pages| - 1]]
      && Flat(anew) == Keep(Flat(f.pages[..|f.pages| - 1]))
      && (forall k | 0 <= k < |anew| :: anew[k].num == |anew[k].ents| && anew[k].inv == 0)
      && CollectsTo(FileOf(f), FileOf(f'), exact)
  }

  // ---------------------------------------------------------- pages and places

  lemma {:induction false} FlatSplit(pages: seq<LogPage>, k: nat)
    requires k <= |pages|
    ensures Flat(pages) == Flat(pages[..k]) + Flat(pages[k..])
    decreases |pages|
  {
    if k == |pages| {
      assert pages[..k] == pages && pages[k..] == [];
    } else {
      var n := |pages| - 1;
      FlatSplit(pages[..n], k);
      assert pages[..n][..k] == pages[..k] && pages[..n][k..] == pages[k..][..n - k];
    }
  }

  lemma FlatOne(g: LogPage)
    ensures Flat([g]) == g.ents
  {
    assert [g][..0] == [];
  }

  /** Page `k` lies at its place in the log. */
  lemma FlatAt(pages: seq<LogPage>, k: nat)
    requires k < |pages|
    ensures Flat(pages) == Flat(pages[..k]) + pages[k].ents + Flat(pages[k + 1..])
  {
    FlatSplit(pages, k);
    FlatSplit(pages[k..], 1);
    FlatOne(pages[k]);
    assert pages[k..][..1] == [pages[k]] && pages[k..][1..] == pages[k + 1..];
  }

  lemma {:induction false} SameOff(a: seq<LogPage>, b: seq<LogPage>, k: nat)
    requires k <= |a| && k <= |b| && forall j | 0 <= j < k :: |a[j].ents| == |b[j].ents|
    ensures Off(a, k) == Off(b, k)
  {
    if k > 0 {
      SameOff(a, b, k - 1);
      assert a[..k][..k - 1] == a[..k - 1] && b[..k][..k - 1] == b[..k - 1];
    }
  }

  lemma {:induction false} DropsConcat(a: seq<Entry>, b: seq<Entry>)
    ensures Drops(a + b) == Drops(a) + Drops(b)
    decreases |b|
  {
    if b == [] {
      assert a + b == a;
    } else {
      DropsConcat(a, b[..|b| - 1]);
      assert (a + b)[..|a + b| - 1] == a + b[..|b| - 1];
    }
  }

  /** Where invalid entries stay invalid, the count grows by those that become so. */
  lemma {:induction false} DropsGrow(was: seq<Entry>, now: seq<Entry>)
    requires |was| <= |now| && forall i | 0 <= i < |was| && Drop(was[i]) :: Drop(now[i])
    ensures Drops(now[..|was|]) == Drops(was) + Newly(was, now)
  {
    if was != [] {
      var n := |was| - 1;
      DropsGrow(was[..n], now[..n]);
      assert now[..n][..n] == now[..n] && now[..|was|][..n] == now[..n];
    }
  }

  // ----------------------------------------------------------- an operation

  /** No operation makes an invalid entry valid, and the entry it logs is valid. */
  lemma DropsStay(f: File, f': File, op: Op, all: set<int>, exact: bool)
    requires Good(f, all, exact) && Good(f', all, exact) && FileStep(f, f', Do(op), exact)
    requires op.DoWrite? ==> op.e.Write? && op.e.num > 0
    ensures |f'.c| == |f.c| + 1 && !Drop(f'.c[|f.c|]) && forall i | 0 <= i < |f.c| && Drop(f.c[i]) :: Drop(f'.c[i])
  {
    hide Partition, NoHole, Replays, SoftOK, Shed;
    var n := |f.c|;
    forall i | 0 <= i < n && Drop(f.c[i]) ensures Drop(f'.c[i]) {
      assert f'.c[i].e == Plain(f'.c)[i] && f.c[i].e == Plain(f.c)[i];
      if f.c[i].e.Write? { FullStays(f, f', op, all, exact, i); } else { KindStays(f, f', op, exact, i); }
    }
    NewValid(f, f', op, all, exact);
  }

  lemma KindStays(f: File, f': File, op: Op, exact: bool, i: nat)
    requires FileStep(f, f', Do(op), exact) && i < |f.c|
    ensures Plain(f'.c)[i].Write? <==> Plain(f.c)[i].Write?
  {
    hide Count, Shed;
    DoOps(f, f', op, exact);
    assert SameOp(Plain(f.c)[i], Plain(f'.c)[..|f.c|][i]);
  }

  lemma FullStays(f: File, f': File, op: Op, all: set<int>, exact: bool, i: nat)
    requires Good(f', all, exact) && FileStep(f, f', Do(op), exact) && i < |f.c| && Dead(f.c[i].e)
    ensures Dead(f'.c[i].e)
  {
    hide Count, Shed, Partition, NoHole, Replays;
    DoOps(f, f', op, exact);
    var e, e' := Plain(f.c)[i], Plain(f'.c)[i];
    assert SameOp(e, Plain(f'.c)[..|f.c|][i]);
    assert e'.invalid >= e.invalid;
    assert EntCounted(e', f'.tree, i, exact);
  }

  lemma NewValid(f: File, f': File, op: Op, all: set<int>, exact: bool)
    requires Good(f, all, exact) && FileStep(f, f', Do(op), exact) && (op.DoWrite? ==> op.e.Write? && op.e.num > 0)
    ensures |f'.c| == |f.c| + 1 && !Drop(f'.c[|f.c|])
  {
    hide Count, Shed, Partition, NoHole, Replays;
    var n := |f.c|;
    assert f'.c[n].e == Plain(f'.c)[n];
    if op.DoWrite? {
      CountNone2(f.tree, op.e.pgoff, op.e.pgoff + op.e.num, n);
    }
  }

  lemma CountNone2(tree: Tree, lo: nat, hi: nat, n: nat)
    requires lo <= hi && forall p | p in tree :: tree[p] < n
    ensures Count(tree, lo, hi, n) == 0
  {
    CountNone(tree, lo, hi, n);
  }

  lemma OnFileKeeps(f: PagedFile, f': PagedFile, op: Op, turn: bool, all: set<int>, exact: bool)
    requires Good(FileOf(f), all, exact) && CountersRight(f.pages) && PagedStep(f, f', OnFile(op, turn), exact)
    ensures Good(FileOf(f'), all, exact) && CountersRight(f'.pages)
  {
    hide Good, FileStep, Drops, Newly;
    DoKeeps(FileOf(f), FileOf(f'), op, all, exact);
    DropsStay(FileOf(f), FileOf(f'), op, all, exact);
    var pages := Turned(f.pages, turn);
    TurnedSame(f.pages, turn);
    forall k | 0 <= k < |pages| ensures PageRight(f'.pages[k]) {
      PageKeeps(pages, f'.pages, k);
    }
  }

  lemma TurnedSame(pages: seq<LogPage>, turn: bool)
    requires CountersRight(pages)
    ensures Flat(Turned(pages, turn)) == Flat(pages) && CountersRight(Turned(pages, turn)) && Turned(pages, turn) != []
  {
    var t := Turned(pages, turn);
    if t != pages { assert t[..|t| - 1] == pages; }
  }

  lemma PageKeeps(pages: seq<LogPage>, pages': seq<LogPage>, k: nat)
    requires |pages'| == |pages| && k < |pages| && PageRight(pages[k])
    requires (forall j | 0 <= j < |pages| - 1 :: Recounted(pages[j], pages'[j]))
             && Extended(pages[|pages| - 1], pages'[|pages| - 1])
    requires var c, c' := Flat(pages), Flat(pages');
             |c'| == |c| + 1 && !Drop(c'[|c|]) && forall i | 0 <= i < |c| && Drop(c[i]) :: Drop(c'[i])
    ensures PageRight(pages'[k])
  {
    hide Drops, Newly, Flat;
    var g, g' := pages[k], pages'[k];
    SameOff(pages, pages', k);
    PageAt(pages, k);
    PageAt(pages', k);
    DropsGrow(g.ents, g'.ents);
    if k == |pages| - 1 {
      LastPage(pages);
      assert g'.ents[|g.ents|] == Flat(pages')[|Flat(pages)|];
      LastValid(g'.ents);
    } else {
      assert g'.ents[..|g.ents|] == g'.ents;
    }
  }

  lemma PageAt(pages: seq<LogPage>, k: nat)
    requires k < |pages|
    ensures Off(pages, k) + |pages[k].ents| <= |Flat(pages)|
    ensures forall i | 0 <= i < |pages[k].ents| :: pages[k].ents[i] == Flat(pages)[Off(pages, k) + i]
  {
    hide Flat;
    FlatAt(pages, k);
  }

  lemma LastPage(pages: seq<LogPage>)
    requires pages != []
    ensures Off(pages, |pages| - 1) + |pages[|pages| - 1].ents| == |Flat(pages)|
  {
  }

  lemma LastValid(c: seq<Entry>)
    requires c != [] && !Drop(c[|c| - 1])
    ensures Drops(c) == Drops(c[..|c| - 1])
  {
  }

  // ------------------------------------------------------------- invalidation

  lemma SupersedeKeeps(f: PagedFile, f': PagedFile, k: nat, i: nat, all: set<int>, exact: bool)
    requires Good(FileOf(f), all, exact) && CountersRight(f.pages) && PagedStep(f, f', Supersede(k, i), exact)
    ensures Good(FileOf(f'), all, exact) && CountersRight(f'.pages)
  {
    hide Consistent, CutsNothing, Drops, Flat;
    var g, g', at := f.pages[k], f'.pages[k], Off(f.pages, k);
    FlatAt(f.pages, k);
    FlatAt(f'.pages, k);
    assert f'.pages[..k] == f.pages[..k] && f'.pages[k + 1..] == f.pages[k + 1..];
    var c, c' := Flat(f.pages), Flat(f'.pages);
    assert c[at + i] == g.ents[i];
    assert c' == c[at + i := c[at + i].(stale := true)];
    assert FileStep(FileOf(f), FileOf(f'), Invalidate(at + i), exact);
    InvalidateKeeps(FileOf(f), FileOf(f'), at + i, all, exact);
    assert !c[at + i].e.Write?;
    OneMore(g.ents, i);
  }

  lemma OneMore(c: seq<Entry>, i: nat)
    requires i < |c| && !c[i].stale && !c[i].e.Write?
    ensures Drops(c[i := c[i].(stale := true)]) == Drops(c) + 1
  {
    hide Drops;
    var e := c[i].(stale := true);
    assert c == c[..i] + [c[i]] + c[i + 1..] && c[i := e] == c[..i] + [e] + c[i + 1..];
    DropsConcat(c[..i] + [c[i]], c[i + 1..]);
    DropsConcat(c[..i] + [e], c[i + 1..]);
    DropsConcat(c[..i], [c[i]]);
    DropsConcat(c[..i], [e]);
    DropsOne(c[i]);
    DropsOne(e);
  }

  lemma DropsOne(g: Entry)
    ensures Drops([g]) == if Drop(g) then 1 else 0
  {
    assert [g][..0] == [];
  }

  // ---------------------------------------------------------------- collection

  lemma {:induction false} RemovedGood(f: File, at: nat, n: nat, all: set<int>, exact: bool)
    requires Good(f, all, exact) && at + n <= |f.c| && forall i | at <= i < at + n :: Drop(f.c[i])
    ensures |f.soft| == |f.c| && Good(Removed(f, at, n), all, exact)
    decreases n
  {
    hide Consistent, Removed, Shift, Less;
    if n == 0 {
      RemovedNone(f, at);
    } else {
      forall p | p in f.tree ensures !(at <= f.tree[p] < at + n) {
        if at <= f.tree[p] < at + n { DropUnmapped(f, all, exact, f.tree[p]); }
      }
      var g := f.(c := Less(f.c, at), soft := Less(f.soft, at), tree := Shift(f.tree, at));
      CollectKeeps(f, g, at, all, exact);
      RemovedGood(g, at, n - 1, all, exact);
      RemovedOne(f, g, at, n);
    }
  }

  lemma RemovedNone(f: File, at: nat)
    requires at <= |f.c| == |f.soft|
    ensures Removed(f, at, 0) == f
  {
    assert f.c[..at] + f.c[at..] == f.c && f.soft[..at] + f.soft[at..] == f.soft;
    assert Removed(f, at, 0).tree == f.tree;
  }

  lemma RemovedOne(f: File, g: File, at: nat, n: nat)
    requires 0 < n && at + n <= |f.c| == |f.soft| && (forall p | p in f.tree :: !(at <= f.tree[p] < at + n))
    requires g == f.(c := Less(f.c, at), soft := Less(f.soft, at), tree := Shift(f.tree, at))
    ensures Removed(g, at, n - 1) == Removed(f, at, n)
  {
    assert g.c[..at] == f.c[..at] && g.c[at + n - 1..] == f.c[at + n..];
    assert g.soft[..at] == f.soft[..at] && g.soft[at + n - 1..] == f.soft[at + n..];
    var t, t' := Removed(g, at, n - 1).tree, Removed(f, at, n).tree;
    forall p | p in f.tree ensures t[p] == t'[p] {}
    assert t == t';
  }

  /** A page that its counters call invalid has only entries that may be dropped. */
  lemma DropPageKeeps(f: PagedFile, f': PagedFile, k: nat, all: set<int>, exact: bool)
    requires Good(FileOf(f), all, exact) && CountersRight(f.pages) && PagedStep(f, f', DropPage(k), exact)
    ensures Good(FileOf(f'), all, exact) && CountersRight(f'.pages)
  {
    hide Good, Drops, Flat, Removed;
    var g, at := f.pages[k], Off(f.pages, k);
    FlatAt(f.pages, k);
    DropsAll(g.ents);
    var c := Flat(f.pages);
    forall i | at <= i < at + |g.ents| ensures Drop(c[i]) { assert c[i] == g.ents[i - at] && c[i] in g.ents; }
    RemovedGood(FileOf(f), at, |g.ents|, all, exact);
  }

  lemma {:induction false} CollectsKeep(f: File, f': File, all: set<int>, exact: bool)
    requires Good(f, all, exact) && CollectsTo(f, f', exact)
    ensures Good(f', all, exact)
    decreases |f.c|
  {
    hide Good, FileStep;
    if f != f' {
      var i: nat, g: File :| |g.c| < |f.c| && FileStep(f, g, Collect(i), exact) && CollectsTo(g, f', exact);
      CollectKeeps(f, g, i, all, exact);
      CollectsKeep(g, f', all, exact);
    }
  }

  /** The new pages hold valid entries only. */
  lemma {:induction false} FreshRight(anew: seq<LogPage>, k: nat)
    requires k < |anew| && forall g | g in Flat(anew) :: !Drop(g)
    ensures Drops(anew[k].ents) == 0
  {
    hide Drops, Flat;
    FlatAt(anew, k);
    var c := anew[k].ents;
    forall g | g in c ensures !Drop(g) { assert g in Flat(anew); }
    NoDrops(c);
  }

  lemma {:induction false} NoDrops(c: seq<Entry>)
    requires forall g | g in c :: !Drop(g)
    ensures Drops(c) == 0
  {
    if c != [] {
      assert c[|c| - 1] in c;
      NoDrops(c[..|c| - 1]);
    }
  }

  lemma RewriteKeeps(f: PagedFile, f': PagedFile, anew: seq<LogPage>, all: set<int>, exact: bool)
    requires Good(FileOf(f), all, exact) && CountersRight(f.pages) && PagedStep(f, f', Rewrite(anew), exact)
    ensures Good(FileOf(f'), all, exact) && CountersRight(f'.pages)
  {
    hide Good, Drops, Flat, Keep, CollectsTo;
    CollectsKeep(FileOf(f), FileOf(f'), all, exact);
    forall k | 0 <= k < |anew| ensures PageRight(anew[k]) { FreshRight(anew, k); }
  }

  // --------------------------------------------------------------- whole runs

  ghost predicate IsPagedRun(run: seq<PagedFile>, ops: seq<PagedOp>, all: set<int>, exact: bool) {
    && |run| == |ops| + 1 && run[0] == PagedFile([], [], all, {}, map[])
    && forall i | 0 <= i < |ops| :: PagedStep(run[i], run[i + 1], ops[i], exact)
  }

  lemma {:induction false} PagedRunGood(run: seq<PagedFile>, ops: seq<PagedOp>, all: set<int>, exact: bool, n: nat)
    requires IsPagedRun(run, ops, all, exact) && n < |run|
    ensures Good(FileOf(run[n]), all, exact) && CountersRight(run[n].pages)
  {
    hide Good, PagedStep;
    if n == 0 {
      EmptyGood(all, exact);
    } else {
      PagedRunGood(run, ops, all, exact, n - 1);
      match ops[n - 1]
      case OnFile(op, turn) => OnFileKeeps(run[n - 1], run[n], op, turn, all, exact);
      case Supersede(k, i) => SupersedeKeeps(run[n - 1], run[n], k, i, all, exact);
      case DropPage(k) => DropPageKeeps(run[n - 1], run[n], k, all, exact);
      case Rewrite(anew) => RewriteKeeps(run[n - 1], run[n], anew, all, exact);
    }
  }

  /** In every run the page counters are right, so that the test by which fast collection frees a
      page holds exactly if all its entries are invalid; the tree is the replay of the log; and in
      whatever pages of memory the log lies, the collectors find what they start from. */
  lemma PagedRunRight(run: seq<PagedFile>, ops: seq<PagedOp>, all: set<int>, exact: bool, n: nat, h: Heap,
                      chain: seq<nat>)
    requires IsPagedRun(run, ops, all, exact) && n < |run|
    requires In(h, chain) && |chain| == |run[n].pages|
    requires forall k | 0 <= k < |chain| ::
               var g := run[n].pages[k];
               h[chain[k]].ents == g.ents && h[chain[k]].num == g.num && h[chain[k]].inv == g.inv
    ensures CountersOK(h, chain) && StaleOK(Flat(run[n].pages))
    ensures Replays(run[n].tree, Plain(Flat(run[n].pages)), true)
    ensures forall k | 0 <= k < |chain| ::
              PageInvalid(h[chain[k]]) <==> forall g | g in run[n].pages[k].ents :: Drop(g)
  {
    hide Good, PagedStep;
    PagedRunGood(run, ops, all, exact, n);
    GoodReplays(FileOf(run[n]), all, exact);
    GoodStale(FileOf(run[n]), all, exact);
    forall k | 0 <= k < |chain| ensures PageInvalid(h[chain[k]]) <==> forall g | g in run[n].pages[k].ents :: Drop(g) {
      DropsAll(run[n].pages[k].ents);
    }
  }
}
