/** Saving the free lists at unmount to a log whose pages come from those same lists, and
    loading them at mount (nova/bbuild.c). */
module NovaSaveLists {
  import opened RangeLists
  import opened NovaFreeList

  /** A saved range; 254 of 16 bytes fill a page up to its tail. */
  datatype Pair = Pair(low: nat, high: nat)
  const PER_PAGE: nat := 254

  type Lists = seq<seq<Range>>

  function Pairs(ns: seq<Range>): (r: seq<Pair>)
    ensures |r| == |ns| && forall i | 0 <= i < |r| :: r[i] == Pair(ns[i].low, ns[i].high)
  {
    seq(|ns|, i requires 0 <= i < |ns| => Pair(ns[i].low, ns[i].high))
  }

  /** All ranges of the first `n` lists, list by list. */
  function AllPairs(lists: Lists, n: nat): seq<Pair>
    requires n <= |lists|
  {
    if n == 0 then [] else AllPairs(lists, n - 1) + Pairs(lists[n - 1])
  }

  function NodeCount(lists: Lists, n: nat): nat
    requires n <= |lists|
  {
    if n == 0 then 0 else NodeCount(lists, n - 1) + |lists[n - 1]|
  }

  lemma {:induction false} PairCount(lists: Lists, n: nat)
    requires n <= |lists|
    ensures |AllPairs(lists, n)| == NodeCount(lists, n)
  {
    if n > 0 { PairCount(lists, n - 1); }
  }

  lemma {:induction false} FewerNodes(a: Lists, b: Lists, n: nat)
    requires |a| == |b| && n <= |a| && forall i | 0 <= i < |a| :: |b[i]| <= |a[i]|
    ensures NodeCount(b, n) <= NodeCount(a, n)
  {
    if n > 0 { FewerNodes(a, b, n - 1); }
  }

  /** The pages reserved for the saved ranges. */
  function PagesFor(nodes: nat): (p: nat)
    ensures nodes <= p * PER_PAGE
  {
    if nodes % PER_PAGE > 0 then nodes / PER_PAGE + 1 else nodes / PER_PAGE
  }

  // -------------------------------------------------------------------- the log

  /** Full pages, the page being filled, and how many pages are left behind it. */
  datatype Log = Log(full: seq<seq<Pair>>, last: seq<Pair>, left: nat)

  ghost predicate LogOK(g: Log, pages: nat) {
    && |g.full| + 1 + g.left == pages && |g.last| <= PER_PAGE
    && forall i | 0 <= i < |g.full| :: |g.full[i]| == PER_PAGE
  }

  function Joined(full: seq<seq<Pair>>): seq<Pair> {
    if full == [] then [] else Joined(full[..|full| - 1]) + full[|full| - 1]
  }

  function Written(g: Log): seq<Pair> { Joined(g.full) + g.last }

  lemma JoinedSnoc(full: seq<seq<Pair>>, p: seq<Pair>)
    ensures Joined(full + [p]) == Joined(full) + p
  {
    assert (full + [p])[..|full|] == full;
  }

  lemma {:induction false} JoinedSize(full: seq<seq<Pair>>)
    requires forall i | 0 <= i < |full| :: |full[i]| == PER_PAGE
    ensures |Joined(full)| == |full| * PER_PAGE
  {
    if full != [] { JoinedSize(full[..|full| - 1]); }
  }

  /** nova_append_range_node_entry; it writes nothing exactly if the last page is full. */
  method AppendPair(g: Log, p: Pair, pages: nat) returns (ok: bool, g': Log)
    requires LogOK(g, pages)
    ensures ok <==> |Written(g)| < pages * PER_PAGE
    ensures LogOK(g', pages) && Written(g') == if ok then Written(g) + [p] else Written(g)
  {
    JoinedSize(g.full);
    ok, g' := true, g;
    if |g.last| + 1 > PER_PAGE && g.left == 0 {
      ok := false;
    } else if |g.last| + 1 > PER_PAGE {
      g' := Log(g.full + [g.last], [p], g.left - 1);
      JoinedSnoc(g.full, g.last);
    } else {
      g' := g.(last := g.last + [p]);
      assert Written(g') == Written(g) + [p];
    }
    Room(|g.full|, |g.last|, g.left, pages);
  }

  lemma Room(full: nat, last: nat, left: nat, pages: nat)
    requires full + 1 + left == pages && last <= PER_PAGE
    ensures full * PER_PAGE + last < pages * PER_PAGE <==> last < PER_PAGE || left > 0
  {
  }

  /** nova_save_blocknode_mappings_to_log once the pages are allocated: every range is written,
      in list order, and the pages suffice. */
  method SaveLists(lists: Lists, pages: nat) returns (g: Log)
    requires pages > 0 && NodeCount(lists, |lists|) <= pages * PER_PAGE
    ensures LogOK(g, pages) && Written(g) == AllPairs(lists, |lists|)
  {
    g := Log([], [], pages - 1);
    PairCount(lists, |lists|);
    for i := 0 to |lists|
      invariant LogOK(g, pages) && Written(g) == AllPairs(lists, i)
    {
      var ns := lists[i];
      assert Pairs(ns)[..0] == [];
      assert AllPairs(lists, i) + [] == AllPairs(lists, i);
      for k := 0 to |ns|
        invariant LogOK(g, pages) && Written(g) == AllPairs(lists, i) + Pairs(ns)[..k]
      {
        Prefix(lists, i, k);
        var ok;
        ok, g := AppendPair(g, Pair(ns[k].low, ns[k].high), pages);
        assert Pairs(ns)[..k + 1] == Pairs(ns)[..k] + [Pair(ns[k].low, ns[k].high)];
      }
      assert Pairs(ns)[..|ns|] == Pairs(ns);
    }
  }

  lemma Prefix(lists: Lists, i: nat, k: nat)
    requires i < |lists| && k < |lists[i]|
    ensures |AllPairs(lists, i) + Pairs(lists[i])[..k]| < NodeCount(lists, |lists|)
  {
    PairCount(lists, i);
    CountUpTo(lists, i + 1);
  }

  lemma {:induction false} CountUpTo(lists: Lists, i: nat)
    requires i <= |lists|
    ensures NodeCount(lists, i) <= NodeCount(lists, |lists|)
    decreases |lists| - i
  {
    if i < |lists| { CountUpTo(lists, i + 1); }
  }

  // -------------------------------------------------------------------- loading

  /** A list as it is rebuilt: its ranges in order, the first and the last node by number in
      the list, and the two counters. */
  datatype Loaded = Loaded(pairs: seq<Pair>, first: int, last: int, nodes: nat, free: int)

  const Nothing := Loaded([], -1, -1, 0, 0)

  function Size(ps: seq<Pair>): int {
    if ps == [] then 0 else Size(ps[..|ps| - 1]) + (ps[|ps| - 1].high - ps[|ps| - 1].low + 1)
  }

  /** First and last node and both counters agree with the ranges. */
  ghost predicate Agrees(l: Loaded) {
    && l.nodes == |l.pairs| && l.free == Size(l.pairs)
    && l.first == (if l.pairs == [] then -1 else 0) && l.last == |l.pairs| - 1
  }

  /** List `c` holds blocks from c * per on. */
  ghost predicate Belongs(ps: seq<Pair>, c: nat, per: nat)
    requires per > 0
  {
    forall i | 0 <= i < |ps| :: ps[i].low / per == c
  }

  ghost predicate Ascending(ps: seq<Pair>) {
    (forall i | 0 <= i < |ps| :: ps[i].low <= ps[i].high) && forall i, j | 0 <= i < j < |ps| :: ps[i].high < ps[j].low
  }

  /** One turn of the loop of nova_init_blockmap_from_inode. The tree insertion puts a range that
      comes in ascending order behind those of its list. */
  method LoadPair(lists: seq<Loaded>, p: Pair, per: nat) returns (lists': seq<Loaded>)
    requires per > 0 && p.low / per < |lists| && forall c | 0 <= c < |lists| :: Agrees(lists[c])
    requires Ascending(lists[p.low / per].pairs + [p])
    ensures |lists'| == |lists| && (forall c | 0 <= c < |lists| :: Agrees(lists'[c]))
    ensures forall c | 0 <= c < |lists| ::
              lists'[c].pairs == if c == p.low / per then lists[c].pairs + [p] else lists[c].pairs
  {
    var c := p.low / per;
    var l := lists[c];
    var ps := l.pairs + [p];
    assert ps[..|ps| - 1] == l.pairs;
    var n := l.nodes + 1;
    var l' := Loaded(ps, if n == 1 then |l.pairs| else l.first, |l.pairs|, n, l.free + (p.high - p.low + 1));
    lists' := lists[c := l'];
  }

  /** What list `c` gets out of a sequence of ranges. */
  function Of(ps: seq<Pair>, c: nat, per: nat): seq<Pair>
    requires per > 0
  {
    if ps == [] then []
    else
      var p := ps[|ps| - 1];
      Of(ps[..|ps| - 1], c, per) + (if p.low / per == c then [p] else [])
  }

  lemma {:induction false} OfConcat(a: seq<Pair>, b: seq<Pair>, c: nat, per: nat)
    requires per > 0
    ensures Of(a + b, c, per) == Of(a, c, per) + Of(b, c, per)
    decreases |b|
  {
    if b == [] {
      assert a + b == a;
    } else {
      OfConcat(a, b[..|b| - 1], c, per);
      assert (a + b)[..|a + b| - 1] == a + b[..|b| - 1];
    }
  }

  lemma {:induction false} OfBelongs(ps: seq<Pair>, c: nat, d: nat, per: nat)
    requires per > 0 && Belongs(ps, d, per)
    ensures Of(ps, c, per) == if c == d then ps else []
  {
    if ps != [] { OfBelongs(ps[..|ps| - 1], c, d, per); }
  }

  method LoadLists(g: Log, cpus: nat, per: nat) returns (lists: seq<Loaded>)
    requires per > 0 && forall i | 0 <= i < |Written(g)| :: Written(g)[i].low / per < cpus
    requires forall c | 0 <= c < cpus :: Ascending(Of(Written(g), c, per))
    ensures |lists| == cpus && forall c | 0 <= c < cpus :: Agrees(lists[c]) && lists[c].pairs == Of(Written(g), c, per)
  {
    var ps := WalkLog(g);
    lists := seq(cpus, _ => Nothing);
    for i := 0 to |ps|
      invariant |lists| == cpus && forall c | 0 <= c < cpus :: Agrees(lists[c]) && lists[c].pairs == Of(ps[..i], c, per)
    {
      assert ps[..i + 1][..i] == ps[..i];
      OfGrows(ps, i + 1, ps[i].low / per, per);
      lists := LoadPair(lists, ps[i], per);
    }
    assert ps[..|ps|] == ps;
  }

  lemma OfGrows(ps: seq<Pair>, k: nat, c: nat, per: nat)
    requires per > 0 && k <= |ps| && Ascending(Of(ps, c, per))
    ensures Ascending(Of(ps[..k], c, per))
  {
    assert ps == ps[..k] + ps[k..];
    OfConcat(ps[..k], ps[k..], c, per);
    var a, b := Of(ps[..k], c, per), Of(ps, c, per);
    forall i | 0 <= i < |a| ensures a[i] == b[i] {}
  }

  /** The walk over the log: page by page up to the tail. */
  method WalkLog(g: Log) returns (ps: seq<Pair>)
    ensures ps == Written(g)
  {
    ps := [];
    assert g.full[..0] == [];
    for i := 0 to |g.full|
      invariant ps == Joined(g.full[..i])
    {
      assert g.full[..i + 1] == g.full[..i] + [g.full[i]];
      JoinedSnoc(g.full[..i], g.full[i]);
      ps := ps + g.full[i];
    }
    assert g.full[..|g.full|] == g.full;
    ps := ps + g.last;
  }

  // --------------------------------------------------------------- round trip

  ghost predicate ListsOK(lists: Lists, per: nat)
    requires per > 0
  {
    forall c | 0 <= c < |lists| :: Norm(lists[c]) && Belongs(Pairs(lists[c]), c, per)
  }

  lemma OfNone(c: nat, per: nat)
    requires per > 0
    ensures Of([], c, per) == []
  {
  }

  lemma {:induction false} OfAll(lists: Lists, n: nat, c: nat, per: nat)
    requires per > 0 && ListsOK(lists, per) && n <= |lists| && c < |lists|
    ensures Of(AllPairs(lists, n), c, per) == if c < n then Pairs(lists[c]) else []
  {
    hide Norm, Of, Pairs, Belongs;
    OfNone(c, per);
    if n > 0 {
      OfAll(lists, n - 1, c, per);
      OfConcat(AllPairs(lists, n - 1), Pairs(lists[n - 1]), c, per);
      OfBelongs(Pairs(lists[n - 1]), c, n - 1, per);
    }
  }

  /** Loading what was saved gives back every list. */
  lemma SaveThenLoad(lists: Lists, per: nat, c: nat)
    requires per > 0 && ListsOK(lists, per) && c < |lists|
    ensures Of(AllPairs(lists, |lists|), c, per) == Pairs(lists[c]) && Ascending(Pairs(lists[c]))
  {
    OfAll(lists, |lists|, c, per);
  }

  /** Block `b` is in one of the runs. */
  ghost predicate Taken(low: seq<nat>, num: seq<nat>, b: nat)
    requires |low| == |num|
  {
    exists i :: 0 <= i < |low| && low[i] <= b < low[i] + num[i]
  }

  lemma TakenSnoc(low: seq<nat>, num: seq<nat>, k: nat, b: nat)
    requires |low| == |num| && k < |low|
    ensures Taken(low[..k + 1], num[..k + 1], b) <==> Taken(low[..k], num[..k], b) || low[k] <= b < low[k] + num[k]
  {
    var n := k + 1;
    if Taken(low[..n], num[..n], b) {
      var i :| 0 <= i < n && low[..n][i] <= b < low[..n][i] + num[..n][i];
      if i < k { assert low[..k][i] <= b < low[..k][i] + num[..k][i]; }
    }
    if Taken(low[..k], num[..k], b) {
      var i :| 0 <= i < k && low[..k][i] <= b < low[..k][i] + num[..k][i];
      assert low[..n][i] <= b < low[..n][i] + num[..n][i];
    }
    if low[k] <= b < low[k] + num[k] { assert low[..n][k] <= b < low[..n][k] + num[..n][k]; }
  }

  /** A list while runs are allocated from it one after the other. */
  ghost predicate Allocs(vs: seq<seq<Range>>, low: seq<nat>, num: seq<nat>, start: nat, end: nat) {
    && |low| == |num| && |vs| == |low| + 1
    && forall i | 0 <= i < |low| :: Lost(vs[i], vs[i + 1], low[i], num[i], start, end)
  }

  /** A list while runs are given back to it. */
  ghost predicate Frees(vs: seq<seq<Range>>, low: seq<nat>, num: seq<nat>, start: nat, end: nat) {
    && |low| == |num| && |vs| == |low| + 1
    && forall i | 0 <= i < |low| :: Gained(vs[i], vs[i + 1], low[i], num[i], start, end)
  }

  lemma {:induction false} AllocsHas(vs: seq<seq<Range>>, low: seq<nat>, num: seq<nat>, start: nat, end: nat, k: nat,
                                     b: nat)
    requires Allocs(vs, low, num, start, end) && k <= |low|
    ensures Has(vs[k], b) <==> Has(vs[0], b) && !Taken(low[..k], num[..k], b)
    ensures Taken(low[..k], num[..k], b) ==> Has(vs[0], b)
  {
    if k > 0 {
      hide Norm, Has, Taken, Distinct, Within, Total;
      AllocsHas(vs, low, num, start, end, k - 1, b);
      TakenSnoc(low, num, k - 1, b);
      assert Lost(vs[k - 1], vs[k], low[k - 1], num[k - 1], start, end);
    }
  }

  lemma {:induction false} FreesHas(vs: seq<seq<Range>>, low: seq<nat>, num: seq<nat>, start: nat, end: nat, k: nat,
                                    b: nat)
    requires Frees(vs, low, num, start, end) && k <= |low|
    ensures Has(vs[k], b) <==> Has(vs[0], b) || Taken(low[..k], num[..k], b)
  {
    if k > 0 {
      hide Norm, Has, Taken, Distinct, Within, Total;
      FreesHas(vs, low, num, start, end, k - 1, b);
      TakenSnoc(low, num, k - 1, b);
      assert Gained(vs[k - 1], vs[k], low[k - 1], num[k - 1], start, end);
    }
  }

  lemma PairsHas(a: seq<Range>, z: seq<Range>, b: nat)
    requires Pairs(a) == Pairs(z)
    ensures Has(a, b) <==> Has(z, b)
  {
    forall i | 0 <= i < |a|
      ensures a[i].low == z[i].low && a[i].high == z[i].high
    {
      assert Pairs(a)[i] == Pairs(z)[i];
    }
    if Has(a, b) {
      var i :| 0 <= i < |a| && a[i].low <= b <= a[i].high;
      assert z[i].low <= b <= z[i].high;
    }
    if Has(z, b) {
      var i :| 0 <= i < |z| && z[i].low <= b <= z[i].high;
      assert a[i].low <= b <= a[i].high;
    }
  }

  /** Unmount and mount: log pages are allocated from a list, the list is saved and loaded,
      and the log pages are given back, in whatever runs. The list is as it was before. */
  lemma UnmountThenMount(vs: seq<seq<Range>>, low: seq<nat>, num: seq<nat>,
                         ws: seq<seq<Range>>, low': seq<nat>, num': seq<nat>, start: nat, end: nat)
    requires Allocs(vs, low, num, start, end) && Frees(ws, low', num', start, end)
    requires Norm(vs[0]) && Norm(ws[0]) && Pairs(ws[0]) == Pairs(vs[|low|])
    requires forall b: nat :: Taken(low, num, b) <==> Taken(low', num', b)
    ensures SameRanges(vs[0], ws[|low'|])
  {
    hide Norm, Has, Taken, Lost, Gained, SameRanges, Pairs;
    var k, n := |low|, |low'|;
    assert low[..k] == low && num[..k] == num && low'[..n] == low' && num'[..n] == num';
    forall b: nat ensures Has(vs[0], b) <==> Has(ws[n], b) {
      AllocsHas(vs, low, num, start, end, k, b);
      PairsHas(ws[0], vs[k], b);
      FreesHas(ws, low', num', start, end, n, b);
    }
    FreesNorm(ws, low', num', start, end);
    Canonical(vs[0], ws[n]);
  }

  lemma FreesNorm(ws: seq<seq<Range>>, low: seq<nat>, num: seq<nat>, start: nat, end: nat)
    requires Frees(ws, low, num, start, end) && Norm(ws[0])
    ensures Norm(ws[|low|])
  {
    hide Has, Distinct, Within, Total;
    if |low| > 0 { assert Gained(ws[|low| - 1], ws[|low|], low[|low| - 1], num[|low| - 1], start, end); }
  }

  /** Reserving pages by the node count before the allocation is enough after it, since
      allocating log pages never adds a node. */
  lemma PagesSuffice(before: Lists, after: Lists)
    requires |before| == |after| && forall i | 0 <= i < |before| :: |after[i]| <= |before[i]|
    ensures NodeCount(after, |after|) <= PagesFor(NodeCount(before, |before|)) * PER_PAGE
  {
    FewerNodes(before, after, |before|);
  }
}
