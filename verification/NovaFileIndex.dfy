/** The page index of a NOVA file (nova/log.c, nova/inode.c, nova/rebuild.c): a radix
    tree from page offsets to the log entries that wrote them, kept in step with the
    log by copy-on-write writes and truncates, and rebuilt from the log at mount. */
module NovaFileIndex {

  /** A log entry. `invalid` is the write entry's invalid_pages counter; `first` is the
      first page past the file size a set-attribute entry records, rounded up. */
  datatype Ent =
    | Write(pgoff: nat, num: nat, block: nat, invalid: nat)
    | SetAttr(first: nat)
    | Other

  type Tree = map<nat, nat>

  predicate Holds(e: Ent, p: nat) { e.Write? && e.pgoff <= p < e.pgoff + e.num }

  predicate Dead(e: Ent) { e.Write? && e.invalid == e.num }

  // ------------------------------------------------ what the log says of a page

  datatype Owner = Nobody | By(i: nat)

  /** The last operation of the log on page `p`; with `skip`, dead entries do not count. */
  function Last(log: seq<Ent>, p: nat, skip: bool): (o: Owner)
    ensures o.By? ==> o.i < |log| && Holds(log[o.i], p) && !(skip && Dead(log[o.i]))
  {
    if log == [] then Nobody
    else
      var n := |log| - 1;
      if Holds(log[n], p) && !(skip && Dead(log[n])) then By(n)
      else if log[n].SetAttr? && log[n].first <= p then Nobody
      else Last(log[..n], p, skip)
  }

  /** The block number replay gives page `p`, 0 for none. */
  function Mapped(log: seq<Ent>, p: nat): (b: int)
  {
    match Last(log, p, true)
    case Nobody => 0
    case By(i) => log[i].block + (p - log[i].pgoff)
  }

  /** The tree that replaying the log yields. */
  ghost predicate Replays(tree: Tree, log: seq<Ent>, skip: bool) {
    forall p: nat ::
      (p in tree <==> Last(log, p, skip).By?) && (p in tree ==> Last(log, p, skip) == By(tree[p]))
  }

  lemma {:induction false} LastSkips(log: seq<Ent>, p: nat)
    requires Last(log, p, false).By? ==> !Dead(log[Last(log, p, false).i])
    ensures Last(log, p, true) == Last(log, p, false)
  {
    if log != [] {
      var n := |log| - 1;
      if !Holds(log[n], p) && !(log[n].SetAttr? && log[n].first <= p) {
        LastSkips(log[..n], p);
      }
    }
  }

  /** Replay may skip dead entries as long as no page is mapped to one. */
  lemma SkippingIsSound(tree: Tree, log: seq<Ent>)
    requires Replays(tree, log, false)
    requires forall p | p in tree :: tree[p] < |log| && !Dead(log[tree[p]])
    ensures Replays(tree, log, true)
  {
    forall p: nat ensures Last(log, p, true) == Last(log, p, false) {
      assert p in tree <==> Last(log, p, false).By?;
      LastSkips(log, p);
    }
  }

  /** Two logs that differ at most in their counters. */
  ghost predicate SameOps(log: seq<Ent>, log': seq<Ent>) {
    |log| == |log'| && forall i | 0 <= i < |log| :: SameOp(log[i], log'[i])
  }

  predicate SameOp(e: Ent, e': Ent) {
    match e
    case Write(pgoff, num, block, _) => e'.Write? && e'.pgoff == pgoff && e'.num == num && e'.block == block
    case _ => e' == e
  }

  lemma {:induction false} LastSameOps(log: seq<Ent>, log': seq<Ent>, p: nat)
    requires SameOps(log, log')
    ensures Last(log, p, false) == Last(log', p, false)
  {
    if log != [] {
      var n := |log| - 1;
      assert SameOp(log[n], log'[n]);
      assert SameOps(log[..n], log'[..n]);
      LastSameOps(log[..n], log'[..n], p);
    }
  }

  // --------------------------------------------------- pages, blocks, counters

  /** get_nvmm: the data block of a mapped page. */
  function BlockAt(log: seq<Ent>, tree: Tree, p: nat): int
    requires p in tree && tree[p] < |log| && log[tree[p]].Write?
  {
    log[tree[p]].block + (p - log[tree[p]].pgoff)
  }

  /** Every mapped page points at a write entry that holds it. */
  ghost predicate Points(log: seq<Ent>, tree: Tree) {
    forall p | p in tree :: tree[p] < |log| && Holds(log[tree[p]], p)
  }

  /** How many pages of `[lo, hi)` are mapped to entry `e`. */
  function Count(tree: Tree, lo: nat, hi: nat, e: nat): (c: nat)
    requires lo <= hi
    ensures c <= hi - lo
    decreases hi - lo
  {
    if lo == hi then 0 else (if lo in tree && tree[lo] == e then 1 else 0) + Count(tree, lo + 1, hi, e)
  }

  /** Blocks of the pages of `[lo, hi)` whose entry a snapshot keeps (or not). */
  ghost function Shed(log: seq<Ent>, tree: Tree, lo: nat, hi: nat, keep: nat -> bool, kept: bool): set<int>
    requires Points(log, tree)
  {
    set p: nat | lo <= p < hi && p in tree && keep(tree[p]) == kept :: BlockAt(log, tree, p)
  }

  ghost function Blocks(lo: int, n: nat): (r: set<int>)
    ensures forall b :: b in r <==> lo <= b < lo + n
  {
    if n == 0 then {} else Blocks(lo, n - 1) + {lo + n - 1}
  }

  /** No hole lies between two pages mapped to the same entry. */
  ghost predicate NoHole(tree: Tree) {
    forall p, q, r | p in tree && q in tree && tree[p] == tree[q] && p <= r <= q :: r in tree
  }

  lemma {:induction false} CountSplit(tree: Tree, lo: nat, mid: nat, hi: nat, e: nat)
    requires lo <= mid <= hi
    ensures Count(tree, lo, hi, e) == Count(tree, lo, mid, e) + Count(tree, mid, hi, e)
    decreases mid - lo
  {
    if lo < mid { CountSplit(tree, lo + 1, mid, hi, e); }
  }

  lemma {:induction false} CountSame(tree: Tree, tree': Tree, lo: nat, hi: nat, e: nat)
    requires lo <= hi
    requires forall p | lo <= p < hi :: (p in tree && tree[p] == e) <==> (p in tree' && tree'[p] == e)
    ensures Count(tree, lo, hi, e) == Count(tree', lo, hi, e)
    decreases hi - lo
  {
    if lo < hi { CountSame(tree, tree', lo + 1, hi, e); }
  }

  lemma {:induction false} CountRun(tree: Tree, lo: nat, hi: nat, d: nat, e: nat)
    requires lo <= hi
    requires forall p | lo <= p < hi :: p in tree && tree[p] == d
    ensures Count(tree, lo, hi, e) == if e == d then hi - lo else 0
    decreases hi - lo
  {
    if lo < hi { CountRun(tree, lo + 1, hi, d, e); }
  }

  lemma {:induction false} CountNone(tree: Tree, lo: nat, hi: nat, e: nat)
    requires lo <= hi
    requires forall p | lo <= p < hi && p in tree :: tree[p] != e
    ensures Count(tree, lo, hi, e) == 0
    decreases hi - lo
  {
    if lo < hi { CountNone(tree, lo + 1, hi, e); }
  }

  lemma {:induction false} CountAll(tree: Tree, lo: nat, hi: nat, e: nat, p: nat)
    requires lo <= p < hi && p in tree && tree[p] == e
    ensures Count(tree, lo, hi, e) > 0
    decreases hi - lo
  {
    if lo < p { CountAll(tree, lo + 1, hi, e, p); }
  }

  /** A run of pages of one entry has consecutive blocks. */
  lemma ShedRun(log: seq<Ent>, tree: Tree, lo: nat, hi: nat, d: nat, keep: nat -> bool, kept: bool)
    requires Points(log, tree) && lo < hi && (forall p | lo <= p < hi :: p in tree && tree[p] == d)
    ensures Shed(log, tree, lo, hi, keep, kept)
              == if keep(d) == kept then Blocks(BlockAt(log, tree, lo), hi - lo) else {}
  {
    if keep(d) == kept {
      var b := BlockAt(log, tree, lo);
      forall x | x in Blocks(b, hi - lo) ensures x in Shed(log, tree, lo, hi, keep, kept) {
        var p := lo + (x - b);
        assert p in tree && BlockAt(log, tree, p) == x;
      }
    }
  }

  lemma ShedSplit(log: seq<Ent>, tree: Tree, lo: nat, mid: nat, hi: nat, keep: nat -> bool, kept: bool)
    requires Points(log, tree) && lo <= mid <= hi
    ensures Shed(log, tree, lo, hi, keep, kept) == Shed(log, tree, lo, mid, keep, kept)
              + Shed(log, tree, mid, hi, keep, kept)
  {
  }

  lemma ShedHole(log: seq<Ent>, tree: Tree, lo: nat, hi: nat, keep: nat -> bool, kept: bool)
    requires Points(log, tree) && forall p | lo <= p < hi :: p !in tree
    ensures Shed(log, tree, lo, hi, keep, kept) == {}
  {
  }

  // ------------------------------------------------ displacing a range of pages

  function Charge(e: Ent, c: nat): Ent { if e.Write? then e.(invalid := e.invalid + c) else e }

  /** The log after every page of `[lo, hi)` that leaves an entry no snapshot keeps has
      been added to that entry's counter. */
  function Charged(log: seq<Ent>, tree: Tree, lo: nat, hi: nat, keep: nat -> bool): (r: seq<Ent>)
    requires lo <= hi
    ensures |r| == |log|
    ensures forall i | 0 <= i < |log| :: r[i] == Charge(log[i], if keep(i) then 0 else Count(tree, lo, hi, i))
  {
    seq(|log|, i requires 0 <= i < |log| => Charge(log[i], if keep(i) then 0 else Count(tree, lo, hi, i)))
  }

  lemma ChargedAt(log: seq<Ent>, tree: Tree, lo: nat, hi: nat, keep: nat -> bool, d: nat)
    requires lo <= hi && d < |log| && log[d].Write?
    ensures var e := Charged(log, tree, lo, hi, keep)[d];
            e.Write? && e.block == log[d].block && e.pgoff == log[d].pgoff
  {
  }

  lemma ChargedNone(log: seq<Ent>, tree: Tree, lo: nat, hi: nat, keep: nat -> bool)
    requires lo <= hi && forall p | lo <= p < hi :: p !in tree
    ensures Charged(log, tree, lo, hi, keep) == log
  {
    forall i | 0 <= i < |log| { CountNone(tree, lo, hi, i); }
  }

  /** Freeing one run settles the pages up to `hi`, a hole or nothing following it. */
  lemma ChargedRun(log: seq<Ent>, tree: Tree, a: nat, lo: nat, mid: nat, hi: nat, d: nat, keep: nat -> bool)
    requires a <= lo < mid <= hi && d < |log| && log[d].Write?
    requires (forall p | lo <= p < mid :: p in tree && tree[p] == d) && (forall p | mid <= p < hi :: p !in tree)
    ensures var was := Charged(log, tree, a, lo, keep);
            Charged(log, tree, a, hi, keep) ==
              if keep(d) then was else was[d := was[d].(invalid := was[d].invalid + (mid - lo))]
  {
    forall i | 0 <= i < |log|
      ensures Count(tree, a, hi, i) == Count(tree, a, lo, i) + if i == d then mid - lo else 0
    {
      CountSplit(tree, a, lo, hi, i);
      CountSplit(tree, lo, mid, hi, i);
      CountRun(tree, lo, mid, d, i);
      CountNone(tree, mid, hi, i);
    }
  }

  lemma ShedUpTo(log: seq<Ent>, tree: Tree, a: nat, lo: nat, mid: nat, hi: nat, d: nat, keep: nat -> bool, kept: bool)
    requires Points(log, tree) && a <= lo < mid <= hi
    requires (forall p | lo <= p < mid :: p in tree && tree[p] == d) && (forall p | mid <= p < hi :: p !in tree)
    ensures Shed(log, tree, a, hi, keep, kept) ==
              Shed(log, tree, a, lo, keep, kept)
                  + (if keep(d) == kept then Blocks(BlockAt(log, tree, lo), mid - lo) else {})
  {
    ShedSplit(log, tree, a, lo, hi, keep, kept);
    ShedSplit(log, tree, lo, mid, hi, keep, kept);
    ShedRun(log, tree, lo, mid, d, keep, kept);
    ShedHole(log, tree, mid, hi, keep, kept);
  }

  /** The tree with `[lo, hi)` mapped to entry `n`. */
  function Painted(tree: Tree, lo: nat, hi: nat, n: nat): (t: Tree)
    ensures forall p: nat :: p in t <==> p in tree || lo <= p < hi
    ensures forall p | p in t :: t[p] == if lo <= p < hi then n else tree[p]
  {
    map p | p in tree.Keys + PageSet(lo, hi) :: if lo <= p < hi then n else tree[p]
  }

  lemma PaintNone(tree: Tree, a: nat, n: nat)
    ensures Painted(tree, a, a, n) == tree
  {
  }

  lemma PaintOne(tree: Tree, a: nat, c: nat, n: nat)
    requires a <= c
    ensures Painted(tree, a, c + 1, n) == Painted(tree, a, c, n)[c := n]
    ensures c in Painted(tree, a, c, n) <==> c in tree
    ensures c in tree ==> Painted(tree, a, c, n)[c] == tree[c]
  {
  }

  function PageSet(lo: nat, hi: nat): (r: set<nat>)
    ensures forall p :: p in r <==> lo <= p < hi
    decreases hi - lo
  {
    if lo >= hi then {} else {lo} + PageSet(lo + 1, hi)
  }

  /** The tree with every page from `lo` on removed. */
  function Cut(tree: Tree, lo: nat): (t: Tree)
    ensures forall p: nat :: p in t <==> p in tree && p < lo
    ensures forall p | p in t :: t[p] == tree[p]
  {
    map p | p in tree && p < lo :: tree[p]
  }

  /** A run of displaced pages not yet freed: `m` pages of entry `d` from page `s`. */
  datatype Run = NoRun | Run(d: nat, s: nat, m: nat)

  /** The loops' view of pages `[a, c)` of the old tree: `run` is pending at its end,
      possibly followed by a hole. */
  ghost predicate Pending(tree: Tree, a: nat, c: nat, run: Run) {
    match run
    case NoRun => forall p | a <= p < c :: p !in tree
    case Run(d, s, m) =>
      a <= s < s + m <= c
      && (forall p | s <= p < s + m :: p in tree && tree[p] == d)
      && (forall p | s + m <= p < c :: p !in tree)
  }

  /** How far the pages before `run` have been settled. */
  function Settled(a: nat, run: Run): nat { if run.NoRun? then a else run.s }

  /** The log with its counters, and who holds the data blocks. */
  datatype Books = Books(log: seq<Ent>, free: set<int>, retained: set<int>)

  /** The books when the pages `[a, c)` of the old tree have been settled. */
  ghost predicate SettledState(now: Books, was: Books, tree: Tree, a: nat, c: nat, freeing: bool, keep: nat -> bool)
    requires Points(was.log, tree) && a <= c
  {
    if freeing then
      && now.log == Charged(was.log, tree, a, c, keep)
      && now.free == was.free + Shed(was.log, tree, a, c, keep, false)
      && now.retained == was.retained + Shed(was.log, tree, a, c, keep, true)
    else now == was
  }

  class FileIndex {
    var log: seq<Ent>
    var tree: Tree
    var free: set<int>
    var retained: set<int>

    constructor (log: seq<Ent>, free: set<int>, retained: set<int>)
      ensures this.log == log && this.tree == map[] && this.free == free && this.retained == retained
    {
      this.log, this.tree, this.free, this.retained := log, map[], free, retained;
    }

    /** nova_free_old_entry: hand the run's blocks to a snapshot, or count them invalid
        and free them. */
    method FreeOldEntry(d: nat, pgoff: nat, num: nat, keep: nat -> bool)
      requires d < |log| && log[d].Write?
      modifies this
      ensures tree == old(tree)
      ensures log == if keep(d) then old(log) else old(log)[d := old(log[d]).(invalid := old(log[d]).invalid + num)]
      ensures free == old(free) + if keep(d) then {} else Blocks(old(log[d]).block + (pgoff - old(log[d]).pgoff), num)
      ensures retained == old(retained)
                + if keep(d) then Blocks(old(log[d]).block + (pgoff - old(log[d]).pgoff), num) else {}
    {
      var nvmm := log[d].block + (pgoff - log[d].pgoff);
      var k := 0;
      if !keep(d) { log := log[d := log[d].(invalid := log[d].invalid + num)]; }
      while k < num
        invariant 0 <= k <= num && tree == old(tree)
        invariant log == if keep(d) then old(log) else old(log)[d := old(log[d]).(invalid := old(log[d]).invalid + num)]
        invariant free == old(free) + if keep(d) then {} else Blocks(nvmm, k)
        invariant retained == old(retained) + if keep(d) then Blocks(nvmm, k) else {}
      {
        if keep(d) { retained := retained + {nvmm + k}; } else { free := free + {nvmm + k}; }
        k := k + 1;
      }
    }

    ghost function Now(): Books
      reads this
    {
      Books(log, free, retained)
    }

    /** Free the pending run, if there is one and blocks are to be freed. */
    method Flush(run: Run, freeing: bool, keep: nat -> bool, ghost was: Books, ghost tree0: Tree,
                 ghost a: nat, ghost c: nat)
      requires Points(was.log, tree0) && a <= c && Pending(tree0, a, c, run)
      requires SettledState(Now(), was, tree0, a, Settled(a, run), freeing, keep)
      modifies this
      ensures tree == old(tree)
      ensures SettledState(Now(), was, tree0, a, c, freeing, keep)
    {
      hide Charged, Shed, Count;
      if run.NoRun? {
        ChargedNone(was.log, tree0, a, c, keep);
        ChargedNone(was.log, tree0, a, a, keep);
        ShedHole(was.log, tree0, a, c, keep, false);
        ShedHole(was.log, tree0, a, c, keep, true);
        ShedHole(was.log, tree0, a, a, keep, false);
        ShedHole(was.log, tree0, a, a, keep, true);
      } else if freeing {
        assert run.s in tree0;
        ChargedAt(was.log, tree0, a, run.s, keep, run.d);
        ChargedRun(was.log, tree0, a, run.s, run.s + run.m, c, run.d, keep);
        ShedUpTo(was.log, tree0, a, run.s, run.s + run.m, c, run.d, keep, false);
        ShedUpTo(was.log, tree0, a, run.s, run.s + run.m, c, run.d, keep, true);
        FreeOldEntry(run.d, run.s, run.m, keep);
      }
    }

    /** Page `c`, mapped to `d` in the old tree, is displaced: it extends the pending
        run, or the run is freed and a new one begins. */
    method Displace(run: Run, c: nat, d: nat, freeing: bool, keep: nat -> bool, ghost was: Books, ghost tree0: Tree,
                    ghost a: nat) returns (run': Run)
      requires Points(was.log, tree0) && NoHole(tree0) && a <= c && c in tree0 && tree0[c] == d
      requires Pending(tree0, a, c, run)
      requires SettledState(Now(), was, tree0, a, Settled(a, run), freeing, keep)
      modifies this
      ensures tree == old(tree)
      ensures Pending(tree0, a, c + 1, run')
      ensures SettledState(Now(), was, tree0, a, Settled(a, run'), freeing, keep)
    {
      hide SettledState;
      if run.NoRun? || d != run.d {
        Flush(run, freeing, keep, was, tree0, a, c);
        run' := Run(d, c, 1);
      } else {
        Contiguous(tree0, run, c);
        run' := run.(m := run.m + 1);
      }
    }

    /** nova_assign_write_entry: point the entry's pages at it, freeing what they held
        run by run. */
    method AssignWriteEntry(n: nat, freeing: bool, keep: nat -> bool)
      requires n < |log| && log[n].Write? && Points(log, tree) && NoHole(tree)
      modifies this
      ensures var a, b := old(log[n]).pgoff, old(log[n]).pgoff + old(log[n]).num;
              && tree == Painted(old(tree), a, b, n)
              && SettledState(Now(), old(Now()), old(tree), a, b, freeing, keep)
    {
      hide SettledState, Painted, NoHole, Points;
      var a, num := log[n].pgoff, log[n].num;
      var run := NoRun;
      var i := 0;
      ghost var was, tree0 := Now(), tree;
      NothingSettled(a, freeing, keep);
      PaintNone(tree0, a, n);
      while i < num
        invariant 0 <= i <= num && Pending(tree0, a, a + i, run)
        invariant tree == Painted(tree0, a, a + i, n)
        invariant SettledState(Now(), was, tree0, a, Settled(a, run), freeing, keep)
      {
        var curr := a + i;
        PaintOne(tree0, a, curr, n);
        if curr in tree {
          run := Displace(run, curr, tree[curr], freeing, keep, was, tree0, a);
        }
        tree := tree[curr := n];
        i := i + 1;
      }
      Flush(run, freeing, keep, was, tree0, a, a + num);
    }

    /** nova_find_next_entry: the first mapped page at or after `p`, if any. */
    method FindNext(p: nat) returns (found: bool, q: nat)
      ensures found <==> exists r :: r in tree && p <= r
      ensures found ==> q in tree && p <= q && forall r | r in tree && p <= r :: q <= r
    {
      found := exists r :: r in tree && p <= r;
      q := 0;
      if found {
        ghost var r :| r in tree && p <= r;
        ghost var m := LeastPage(tree, p, r);
        q :| q in tree && p <= q && forall r | r in tree && p <= r :: q <= r;
      }
    }

    /** nova_delete_file_tree: unmap every page from `first` on, skipping holes, and
        free the blocks run by run. */
    method DeleteFileTree(first: nat, freeing: bool, keep: nat -> bool, ghost top: nat)
      requires Points(log, tree) && NoHole(tree) && first <= top && forall p | p in tree :: p < top
      modifies this
      ensures tree == Cut(old(tree), first)
      ensures SettledState(Now(), old(Now()), old(tree), first, top, freeing, keep)
    {
      hide SettledState, NoHole;
      var run := NoRun;
      var pgoff := first;
      ghost var was, tree0 := Now(), tree;
      NothingSettled(first, freeing, keep);
      var more := true;
      while more
        invariant first <= pgoff <= top && Pending(tree0, first, pgoff, run)
        invariant forall p :: p in tree <==> p in tree0 && !(first <= p < pgoff)
        invariant forall p | p in tree :: tree[p] == tree0[p]
        invariant SettledState(Now(), was, tree0, first, Settled(first, run), freeing, keep)
        invariant !more ==> forall p | p in tree0 :: p < pgoff
        decreases more, top - pgoff
      {
        if pgoff in tree {
          var d := tree[pgoff];
          tree := tree - {pgoff};
          run := Displace(run, pgoff, d, freeing, keep, was, tree0, first);
          pgoff := pgoff + 1;
        } else {
          var found, q := FindNext(pgoff);
          if found {
            SettledOps(Now(), was, tree0, first, Settled(first, run), freeing, keep);
            var next := log[tree[q]].pgoff;
            pgoff := if pgoff + 1 > next then pgoff + 1 else next;
          } else {
            more := false;
          }
        }
      }
      Flush(run, freeing, keep, was, tree0, first, top);
    }

    /** A copy-on-write write: append the entry, then assign its pages. */
    method CowWrite(pgoff: nat, num: nat, block: nat, keep: nat -> bool, ghost all: set<int>, ghost exact: bool)
      requires Consistent(Now(), tree, all, exact) && Blocks(block, num) <= free && (exact ==> forall i :: !keep(i))
      modifies this
      ensures Stepped(old(Now()), old(tree), Now(), tree, DoWrite(Write(pgoff, num, block, 0), keep), exact)
      ensures Consistent(Now(), tree, all, exact)
    {
      hide Consistent, SettledState, Painted;
      ghost var was := Now();
      ghost var e := Write(pgoff, num, block, 0);
      log := log + [Write(pgoff, num, block, 0)];
      TakeBlocks(block, num);
      StillPoints(was, tree, all, exact, e);
      AssignWriteEntry(|log| - 1, true, keep);
      StepKeeps(was, old(tree), Now(), tree, DoWrite(e, keep), all, exact);
    }

    method TakeBlocks(block: nat, num: nat)
      modifies this
      ensures free == old(free) - Blocks(block, num) && log == old(log) && tree == old(tree)
      ensures retained == old(retained)
    {
      var k := 0;
      while k < num
        invariant 0 <= k <= num && free == old(free) - Blocks(block, k)
        invariant log == old(log) && tree == old(tree) && retained == old(retained)
      {
        free := free - {block + k};
        k := k + 1;
      }
    }

    /** A truncate to `first` pages: append the set-size entry, then cut the tree. */
    method Truncate(first: nat, keep: nat -> bool, ghost all: set<int>, ghost exact: bool)
      requires Consistent(Now(), tree, all, exact) && (exact ==> forall i :: !keep(i))
      modifies this
      ensures exists top :: Stepped(old(Now()), old(tree), Now(), tree, DoTruncate(first, top, keep), exact)
      ensures Consistent(Now(), tree, all, exact)
    {
      hide Consistent, SettledState;
      ghost var was := Now();
      log := log + [SetAttr(first)];
      StillPoints(was, tree, all, exact, SetAttr(first));
      ghost var top := TopPage(tree);
      if top < first { top := first; }
      DeleteFileTree(first, true, keep, top);
      StepKeeps(was, old(tree), Now(), tree, DoTruncate(first, top, keep), all, exact);
    }

    /** nova_rebuild_file_inode_tree, from an empty tree: dead write entries are skipped
        and nothing is freed. */
    method RebuildTree()
      requires tree == map[]
      modifies this
      ensures Replays(tree, log, true)
      ensures Now() == old(Now())
    {
      hide Replays, NoHole, SettledState, Painted, Cut, Points;
      EmptyReplays(log);
      var i := 0;
      while i < |log|
        invariant 0 <= i <= |log| && Now() == old(Now())
        invariant Replays(tree, log[..i], true) && Points(log[..i], tree) && NoHole(tree)
      {
        ghost var before := tree;
        var e, none := log[i], (_: nat) => false;
        PointsOn(log, i, tree);
        if e.Write? && e.num != e.invalid {
          AssignWriteEntry(i, false, none);
          NothingFreed(Now(), old(Now()), before, e.pgoff, e.pgoff + e.num, none);
          PaintedNoHole(before, e.pgoff, e.pgoff + e.num, i);
        } else if e.SetAttr? {
          ghost var top := TopPage(tree);
          if top < e.first { top := e.first; }
          DeleteFileTree(e.first, false, none, top);
          NothingFreed(Now(), old(Now()), before, e.first, top, none);
          CutNoHole(before, e.first);
        }
        ReplaysOn(log, i, before, tree);
        i := i + 1;
      }
      assert log[..i] == log;
    }

    lemma NothingSettled(a: nat, freeing: bool, keep: nat -> bool)
      requires Points(log, tree)
      ensures SettledState(Now(), Now(), tree, a, a, freeing, keep)
    {
      ChargedNone(log, tree, a, a, keep);
      ShedHole(log, tree, a, a, keep, false);
      ShedHole(log, tree, a, a, keep, true);
    }
  }

  /** Between two pages of one entry there is no hole, so a run has no gap. */
  lemma Contiguous(tree: Tree, run: Run, c: nat)
    requires NoHole(tree) && run.Run? && run.m > 0 && run.s + run.m <= c && c in tree && tree[c] == run.d
    requires run.s in tree && tree[run.s] == run.d && forall p | run.s + run.m <= p < c :: p !in tree
    ensures run.s + run.m == c
  {
    assert run.s + run.m in tree;
  }

  lemma {:induction false} LeastPage(tree: Tree, p: nat, r: nat) returns (m: nat)
    requires r in tree && p <= r
    ensures m in tree && p <= m && forall q | q in tree && p <= q :: m <= q
    decreases r
  {
    if q :| q in tree && p <= q < r { m := LeastPage(tree, p, q); } else { m := r; }
  }

  lemma SettledOps(now: Books, was: Books, tree: Tree, a: nat, c: nat, freeing: bool, keep: nat -> bool)
    requires Points(was.log, tree) && a <= c && SettledState(now, was, tree, a, c, freeing, keep)
    ensures SameOps(was.log, now.log)
  {
  }

  // --------------------------------------------------- the invariant of a file

  /** Counters: of the pages an entry wrote, those still mapped to it and those counted
      invalid never overlap; with no snapshot around, together they are all of them. */
  ghost predicate Counted(log: seq<Ent>, tree: Tree, exact: bool) {
    forall i | 0 <= i < |log| && log[i].Write? :: EntCounted(log[i], tree, i, exact)
  }

  ghost predicate EntCounted(e: Ent, tree: Tree, i: nat, exact: bool)
    requires e.Write?
  {
    var mapped := Count(tree, e.pgoff, e.pgoff + e.num, i);
    e.invalid + mapped <= e.num && (exact ==> e.invalid + mapped == e.num)
  }

  /** Every data block is mapped once, or kept for a snapshot, or free: exactly one. */
  ghost predicate Partition(b: Books, tree: Tree, all: set<int>)
    requires Points(b.log, tree)
  {
    && b.free <= all && b.retained <= all && b.free !! b.retained
    && (forall p | p in tree :: BlockAt(b.log, tree, p) in all - b.free - b.retained)
    && (forall p, q | p in tree && q in tree && BlockAt(b.log, tree, p) == BlockAt(b.log, tree, q) :: p == q)
    && (forall x | x in all - b.free - b.retained :: MapsTo(b.log, tree, x))
  }

  ghost predicate MapsTo(log: seq<Ent>, tree: Tree, x: int)
    requires Points(log, tree)
  {
    exists p :: p in tree && BlockAt(log, tree, p) == x
  }

  ghost predicate Consistent(b: Books, tree: Tree, all: set<int>, exact: bool) {
    && Replays(tree, b.log, false) && Points(b.log, tree) && NoHole(tree)
    && Counted(b.log, tree, exact) && Partition(b, tree, all)
  }

  /** An entry whose counter is full is not the last operation on any page. */
  lemma DeadIsUnmapped(b: Books, tree: Tree, all: set<int>, exact: bool, p: nat)
    requires Consistent(b, tree, all, exact) && p in tree
    ensures !Dead(b.log[tree[p]])
  {
    hide Partition, Replays, NoHole, Count;
    var i := tree[p];
    assert Holds(b.log[i], p) && EntCounted(b.log[i], tree, i, exact);
    CountAll(tree, b.log[i].pgoff, b.log[i].pgoff + b.log[i].num, i, p);
  }

  /** ... and with no snapshot around, only such entries are full. */
  lemma UnmappedIsDead(b: Books, tree: Tree, all: set<int>, i: nat)
    requires Consistent(b, tree, all, true) && i < |b.log| && b.log[i].Write?
    ensures Dead(b.log[i]) <==> forall p | p in tree :: tree[p] != i
  {
    var lo, hi := b.log[i].pgoff, b.log[i].pgoff + b.log[i].num;
    if forall p | p in tree :: tree[p] != i {
      CountNone(tree, lo, hi, i);
    }
    forall p | p in tree && Dead(b.log[i]) ensures tree[p] != i { DeadIsUnmapped(b, tree, all, true, p); }
  }

  // ------------------------------------------------------------ a write

  /** The books just after the new entry is appended and its blocks are allocated. */
  ghost function Appended(b: Books, e: Ent): Books
    requires e.Write?
  {
    Books(b.log + [e], b.free - Blocks(e.block, e.num), b.retained)
  }

  lemma {:induction false} LastAppend(log: seq<Ent>, e: Ent, p: nat)
    ensures Last(log + [e], p, false) ==
              if Holds(e, p) then By(|log|) else if e.SetAttr? && e.first <= p then Nobody else Last(log, p, false)
  {
    assert (log + [e])[..|log|] == log;
  }

  lemma WriteReplays(b: Books, tree: Tree, e: Ent, now: Books)
    requires Replays(tree, b.log, false) && Points(b.log, tree) && e.Write? && SameOps(b.log + [e], now.log)
    ensures Replays(Painted(tree, e.pgoff, e.pgoff + e.num, |b.log|), now.log, false)
    ensures Points(now.log, Painted(tree, e.pgoff, e.pgoff + e.num, |b.log|))
  {
    var t := Painted(tree, e.pgoff, e.pgoff + e.num, |b.log|);
    forall p: nat
      ensures (p in t <==> Last(now.log, p, false).By?) && (p in t ==> Last(now.log, p, false) == By(t[p]))
    {
      LastSameOps(b.log + [e], now.log, p);
      LastAppend(b.log, e, p);
    }
    forall p | p in t ensures t[p] < |now.log| && Holds(now.log[t[p]], p) {
      assert SameOp((b.log + [e])[t[p]], now.log[t[p]]);
    }
  }

  lemma PaintedNoHole(tree: Tree, a: nat, c: nat, n: nat)
    requires NoHole(tree) && forall p | p in tree :: tree[p] != n
    ensures NoHole(Painted(tree, a, c, n))
  {
    var t := Painted(tree, a, c, n);
    forall p, q, r | p in t && q in t && t[p] == t[q] && p <= r <= q ensures r in t {
      if t[p] != n { assert p in tree && q in tree; }
    }
  }

  /** Pages of an entry all lie in its own range. */
  lemma CountRange(log: seq<Ent>, tree: Tree, i: nat, top: nat)
    requires Points(log, tree) && i < |log| && log[i].Write? && log[i].pgoff + log[i].num <= top
    ensures Count(tree, 0, top, i) == Count(tree, log[i].pgoff, log[i].pgoff + log[i].num, i)
  {
    var lo, hi := log[i].pgoff, log[i].pgoff + log[i].num;
    CountSplit(tree, 0, lo, top, i);
    CountSplit(tree, lo, hi, top, i);
    CountNone(tree, 0, lo, i);
    CountNone(tree, hi, top, i);
  }

  /** What a change of the pages `[a, c)` takes from an entry that gets none of them. */
  lemma CountMoves(log: seq<Ent>, log': seq<Ent>, tree: Tree, tree': Tree, a: nat, c: nat, i: nat)
    requires Points(log, tree) && Points(log', tree') && i < |log| <= |log'| && a <= c
    requires log[i].Write? && SameOp(log[i], log'[i])
    requires forall p | a <= p < c && p in tree' :: tree'[p] != i
    requires forall p: nat | !(a <= p < c) :: (p in tree' && tree'[p] == i) <==> (p in tree && tree[p] == i)
    ensures var lo, hi := log[i].pgoff, log[i].pgoff + log[i].num;
            Count(tree', lo, hi, i) + Count(tree, a, c, i) == Count(tree, lo, hi, i)
  {
    var top := log[i].pgoff + log[i].num + c;
    CountRange(log, tree, i, top);
    CountRange(log', tree', i, top);
    CountSplit(tree, 0, a, top, i);
    CountSplit(tree, a, c, top, i);
    CountSplit(tree', 0, a, top, i);
    CountSplit(tree', a, c, top, i);
    CountSame(tree, tree', 0, a, i);
    CountSame(tree, tree', c, top, i);
    CountNone(tree', a, c, i);
  }

  lemma ChargedCounted(log: seq<Ent>, tree: Tree, tree': Tree, a: nat, c: nat, keep: nat -> bool, exact: bool, i: nat)
    requires a <= c && i < |log| && log[i].Write? && EntCounted(log[i], tree, i, exact) && (exact ==> !keep(i))
    requires Count(tree', log[i].pgoff, log[i].pgoff + log[i].num, i) + Count(tree, a, c, i)
             == Count(tree, log[i].pgoff, log[i].pgoff + log[i].num, i)
    ensures EntCounted(Charged(log, tree, a, c, keep)[i], tree', i, exact)
  {
    hide Count;
  }

  lemma WriteCountedOld(log: seq<Ent>, tree: Tree, e: Ent, keep: nat -> bool, exact: bool, i: nat)
    requires Points(log, tree) && e.Write? && i < |log| && log[i].Write?
    requires EntCounted(log[i], tree, i, exact) && (exact ==> !keep(i))
    ensures EntCounted(Charged(log + [e], tree, e.pgoff, e.pgoff + e.num, keep)[i],
                       Painted(tree, e.pgoff, e.pgoff + e.num, |log|), i, exact)
  {
    hide Count, Charged;
    var n, a, c := |log|, e.pgoff, e.pgoff + e.num;
    var tree' := Painted(tree, a, c, n);
    assert Points(log + [e], tree');
    CountMoves(log, log + [e], tree, tree', a, c, i);
    ChargedCounted(log + [e], tree, tree', a, c, keep, exact, i);
  }

  lemma WriteCountedNew(log: seq<Ent>, tree: Tree, e: Ent, keep: nat -> bool, exact: bool)
    requires Points(log, tree) && e.Write? && e.invalid == 0
    ensures EntCounted(Charged(log + [e], tree, e.pgoff, e.pgoff + e.num, keep)[|log|],
                       Painted(tree, e.pgoff, e.pgoff + e.num, |log|), |log|, exact)
  {
    CountNone(tree, e.pgoff, e.pgoff + e.num, |log|);
    CountRun(Painted(tree, e.pgoff, e.pgoff + e.num, |log|), e.pgoff, e.pgoff + e.num, |log|, |log|);
  }

  lemma WriteCounted(log: seq<Ent>, tree: Tree, e: Ent, keep: nat -> bool, exact: bool)
    requires Points(log, tree) && Counted(log, tree, exact) && e.Write? && e.invalid == 0
    requires exact ==> forall i :: !keep(i)
    ensures Counted(Charged(log + [e], tree, e.pgoff, e.pgoff + e.num, keep),
                    Painted(tree, e.pgoff, e.pgoff + e.num, |log|), exact)
  {
    hide Count, EntCounted, Painted;
    var log' := Charged(log + [e], tree, e.pgoff, e.pgoff + e.num, keep);
    forall i | 0 <= i < |log'| && log'[i].Write?
      ensures EntCounted(log'[i], Painted(tree, e.pgoff, e.pgoff + e.num, |log|), i, exact)
    {
      if i == |log| {
        WriteCountedNew(log, tree, e, keep, exact);
      } else {
        WriteCountedOld(log, tree, e, keep, exact, i);
      }
    }
  }

  // ---------------------------------------------------------- who holds a block

  /** The tree without the pages `[a, c)`. */
  function Without(tree: Tree, a: nat, c: nat): (t: Tree)
    ensures forall p: nat :: p in t <==> p in tree && !(a <= p < c)
    ensures forall p | p in t :: t[p] == tree[p]
  {
    map p | p in tree && !(a <= p < c) :: tree[p]
  }

  /** What is shed are the blocks of the pages in the range, and no others. */
  lemma ShedIs(b: Books, tree: Tree, all: set<int>, a: nat, c: nat, keep: nat -> bool, p: nat, kept: bool)
    requires Points(b.log, tree) && Partition(b, tree, all) && p in tree
    ensures BlockAt(b.log, tree, p) in Shed(b.log, tree, a, c, keep, kept) <==> a <= p < c && keep(tree[p]) == kept
  {
  }

  lemma ShedInUse(b: Books, tree: Tree, all: set<int>, a: nat, c: nat, keep: nat -> bool, kept: bool)
    requires Points(b.log, tree) && Partition(b, tree, all)
    ensures Shed(b.log, tree, a, c, keep, kept) <= all - b.free - b.retained
  {
  }

  lemma ShedApart(b: Books, tree: Tree, all: set<int>, a: nat, c: nat, keep: nat -> bool)
    requires Points(b.log, tree) && Partition(b, tree, all)
    ensures Shed(b.log, tree, a, c, keep, false) !! Shed(b.log, tree, a, c, keep, true)
  {
    hide BlockAt;
    forall x | x in Shed(b.log, tree, a, c, keep, false) ensures x !in Shed(b.log, tree, a, c, keep, true) {
      var p: nat :| a <= p < c && p in tree && keep(tree[p]) == false && BlockAt(b.log, tree, p) == x;
      ShedIs(b, tree, all, a, c, keep, p, true);
    }
  }

  lemma DisplacedPartition(b: Books, tree: Tree, all: set<int>, a: nat, c: nat, keep: nat -> bool)
    requires Points(b.log, tree) && Partition(b, tree, all)
    ensures Points(b.log, Without(tree, a, c))
    ensures Partition(Books(b.log, b.free + Shed(b.log, tree, a, c, keep, false),
              b.retained + Shed(b.log, tree, a, c, keep, true)),
                      Without(tree, a, c), all)
    ensures Shed(b.log, tree, a, c, keep, false) !! b.free && Shed(b.log, tree, a, c, keep, true) !! b.retained
  {
    hide Shed;
    var t := Without(tree, a, c);
    var f, r := b.free + Shed(b.log, tree, a, c, keep, false), b.retained + Shed(b.log, tree, a, c, keep, true);
    ShedInUse(b, tree, all, a, c, keep, false);
    ShedInUse(b, tree, all, a, c, keep, true);
    ShedApart(b, tree, all, a, c, keep);
    forall x | x in all - f - r ensures MapsTo(b.log, t, x) {
      assert MapsTo(b.log, tree, x);
      var p :| p in tree && BlockAt(b.log, tree, p) == x;
      ShedIs(b, tree, all, a, c, keep, p, keep(tree[p]));
      assert p in t && BlockAt(b.log, t, p) == x;
    }
    forall p | p in t ensures BlockAt(b.log, t, p) in all - f - r {
      assert BlockAt(b.log, t, p) == BlockAt(b.log, tree, p);
      ShedIs(b, tree, all, a, c, keep, p, false);
      ShedIs(b, tree, all, a, c, keep, p, true);
    }
    forall p, q | p in t && q in t && BlockAt(b.log, t, p) == BlockAt(b.log, t, q) ensures p == q {
      assert BlockAt(b.log, t, p) == BlockAt(b.log, tree, p) && BlockAt(b.log, t, q) == BlockAt(b.log, tree, q);
    }
  }

  /** Mapping fresh blocks at pages that held none. */
  lemma MappedPartition(b: Books, tree: Tree, all: set<int>, e: Ent, log': seq<Ent>)
    requires Points(b.log, tree) && Partition(b, tree, all)
    requires e.Write? && Blocks(e.block, e.num) <= b.free && SameOps(b.log + [e], log')
    requires forall p | e.pgoff <= p < e.pgoff + e.num :: p !in tree
    ensures Points(log', Painted(tree, e.pgoff, e.pgoff + e.num, |b.log|))
    ensures Partition(Books(log', b.free - Blocks(e.block, e.num), b.retained),
                      Painted(tree, e.pgoff, e.pgoff + e.num, |b.log|), all)
  {
    var n := |b.log|;
    var t := Painted(tree, e.pgoff, e.pgoff + e.num, n);
    forall p | p in t
      ensures t[p] < |log'| && Holds(log'[t[p]], p)
      ensures BlockAt(log', t, p) == if p in tree then BlockAt(b.log, tree, p) else e.block + (p - e.pgoff)
    {
      assert SameOp((b.log + [e])[t[p]], log'[t[p]]);
    }
    forall x | x in all - (b.free - Blocks(e.block, e.num)) - b.retained ensures MapsTo(log', t, x) {
      if x in b.free {
        var p: nat := e.pgoff + (x - e.block);
        assert p in t && BlockAt(log', t, p) == x;
      } else {
        assert MapsTo(b.log, tree, x);
        var p :| p in tree && BlockAt(b.log, tree, p) == x;
        assert p in t && BlockAt(log', t, p) == x;
      }
    }
  }

  /** Counters play no part in who holds a block. */
  lemma PartitionSameOps(b: Books, log': seq<Ent>, tree: Tree, all: set<int>)
    requires Points(b.log, tree) && Partition(b, tree, all) && SameOps(b.log, log')
    ensures Points(log', tree) && Partition(b.(log := log'), tree, all)
  {
    forall p | p in tree
      ensures tree[p] < |log'| && Holds(log'[tree[p]], p) && BlockAt(log', tree, p) == BlockAt(b.log, tree, p)
    {
      assert SameOp(b.log[tree[p]], log'[tree[p]]);
    }
    forall x | x in all - b.free - b.retained ensures MapsTo(log', tree, x) {
      assert MapsTo(b.log, tree, x);
      var p :| p in tree && BlockAt(b.log, tree, p) == x;
      assert BlockAt(log', tree, p) == x;
    }
  }

  // ----------------------------------------------------------- the operations

  /** A copy-on-write write of fresh blocks. */
  lemma WriteKeeps(b: Books, tree: Tree, all: set<int>, exact: bool, e: Ent, keep: nat -> bool, now: Books)
    requires Consistent(b, tree, all, exact) && e.Write? && e.invalid == 0 && Blocks(e.block, e.num) <= b.free
    requires exact ==> forall i :: !keep(i)
    requires Points(b.log + [e], tree)
    requires SettledState(now, Appended(b, e), tree, e.pgoff, e.pgoff + e.num, true, keep)
    ensures Consistent(now, Painted(tree, e.pgoff, e.pgoff + e.num, |b.log|), all, exact)
  {
    hide Count, EntCounted, Counted, Partition, Replays, NoHole, Last, Shed, Charged;
    var a, c := e.pgoff, e.pgoff + e.num;
    SettledOps(now, Appended(b, e), tree, a, c, true, keep);
    WriteReplays(b, tree, e, now);
    PaintedNoHole(tree, a, c, |b.log|);
    WriteCounted(b.log, tree, e, keep, exact);
    WritePartition(b, tree, all, e, keep, now);
  }

  lemma WritePartition(b: Books, tree: Tree, all: set<int>, e: Ent, keep: nat -> bool, now: Books)
    requires Points(b.log, tree) && Partition(b, tree, all) && e.Write? && Blocks(e.block, e.num) <= b.free
    requires Points(b.log + [e], tree)
    requires SettledState(now, Appended(b, e), tree, e.pgoff, e.pgoff + e.num, true, keep)
    ensures Points(now.log, Painted(tree, e.pgoff, e.pgoff + e.num, |b.log|))
    ensures Partition(now, Painted(tree, e.pgoff, e.pgoff + e.num, |b.log|), all)
  {
    hide Partition, Charged, Count;
    var a, c := e.pgoff, e.pgoff + e.num;
    SettledOps(now, Appended(b, e), tree, a, c, true, keep);
    DisplacedPartition(b, tree, all, a, c, keep);
    ShedAppended(b.log, e, tree, a, c, keep);
    var f, r := Shed(b.log, tree, a, c, keep, false), Shed(b.log, tree, a, c, keep, true);
    var mid := Books(b.log, b.free + f, b.retained + r);
    MappedPartition(mid, Without(tree, a, c), all, e, now.log);
    assert Painted(Without(tree, a, c), a, c, |b.log|) == Painted(tree, a, c, |b.log|);
    assert now.free == mid.free - Blocks(e.block, e.num);
    assert now.retained == mid.retained;
  }

  lemma ShedAppended(log: seq<Ent>, e: Ent, tree: Tree, a: nat, c: nat, keep: nat -> bool)
    requires Points(log, tree) && Points(log + [e], tree)
    ensures forall kept :: Shed(log + [e], tree, a, c, keep, kept) == Shed(log, tree, a, c, keep, kept)
  {
    assert forall p | p in tree :: BlockAt(log + [e], tree, p) == BlockAt(log, tree, p);
  }

  lemma CutReplays(log: seq<Ent>, tree: Tree, first: nat, now: seq<Ent>)
    requires Replays(tree, log, false) && Points(log, tree) && SameOps(log + [SetAttr(first)], now)
    ensures Replays(Cut(tree, first), now, false) && Points(now, Cut(tree, first)) && Points(now, tree)
  {
    var t := Cut(tree, first);
    forall p: nat ensures (p in t <==> Last(now, p, false).By?) && (p in t ==> Last(now, p, false) == By(t[p])) {
      LastSameOps(log + [SetAttr(first)], now, p);
      LastAppend(log, SetAttr(first), p);
    }
    forall p | p in tree ensures tree[p] < |now| && Holds(now[tree[p]], p) {
      assert SameOp((log + [SetAttr(first)])[tree[p]], now[tree[p]]);
    }
  }

  lemma CutNoHole(tree: Tree, first: nat)
    requires NoHole(tree)
    ensures NoHole(Cut(tree, first))
  {
  }

  lemma CutCountedOne(log: seq<Ent>, tree: Tree, first: nat, top: nat, keep: nat -> bool, exact: bool, i: nat)
    requires Points(log, tree) && first <= top && (forall p | p in tree :: p < top) && i < |log| && log[i].Write?
    requires EntCounted(log[i], tree, i, exact) && (exact ==> !keep(i))
    ensures EntCounted(Charged(log, tree, first, top, keep)[i], Cut(tree, first), i, exact)
  {
    hide Count, Charged;
    CountMoves(log, log, tree, Cut(tree, first), first, top, i);
    ChargedCounted(log, tree, Cut(tree, first), first, top, keep, exact, i);
  }

  lemma CutCounted(log: seq<Ent>, tree: Tree, first: nat, top: nat, keep: nat -> bool, exact: bool)
    requires Points(log, tree) && Counted(log, tree, exact) && first <= top && (forall p | p in tree :: p < top)
    requires exact ==> forall i :: !keep(i)
    ensures Counted(Charged(log, tree, first, top, keep), Cut(tree, first), exact)
  {
    hide Count, EntCounted, Cut;
    var log' := Charged(log, tree, first, top, keep);
    forall i | 0 <= i < |log'| && log'[i].Write? ensures EntCounted(log'[i], Cut(tree, first), i, exact) {
      CutCountedOne(log, tree, first, top, keep, exact, i);
    }
  }

  /** A truncate: the set-size entry is appended, then every page past it is unmapped. */
  lemma TruncateKeeps(b: Books, tree: Tree, all: set<int>, exact: bool, first: nat, top: nat, keep: nat -> bool,
                      now: Books)
    requires Consistent(b, tree, all, exact) && first <= top && (forall p | p in tree :: p < top)
    requires exact ==> forall i :: !keep(i)
    requires Points(b.log + [SetAttr(first)], tree)
    requires SettledState(now, b.(log := b.log + [SetAttr(first)]), tree, first, top, true, keep)
    ensures Consistent(now, Cut(tree, first), all, exact)
  {
    hide Count, EntCounted, Counted, Partition, Replays, NoHole, Last, Shed, Charged;
    var log1 := b.log + [SetAttr(first)];
    SettledOps(now, b.(log := log1), tree, first, top, true, keep);
    CutReplays(b.log, tree, first, now.log);
    CutNoHole(tree, first);
    CountedAppend(b.log, tree, exact, SetAttr(first));
    CutCounted(log1, tree, first, top, keep, exact);
    ShedAppended(b.log, SetAttr(first), tree, first, top, keep);
    DisplacedPartition(b, tree, all, first, top, keep);
    assert Without(tree, first, top) == Cut(tree, first);
    AppendPartition(Books(b.log, now.free, now.retained), SetAttr(first), Cut(tree, first), all);
    PartitionSameOps(Books(log1, now.free, now.retained), now.log, Cut(tree, first), all);
  }

  lemma CountedAppend(log: seq<Ent>, tree: Tree, exact: bool, e: Ent)
    requires Counted(log, tree, exact) && !e.Write?
    ensures Counted(log + [e], tree, exact)
  {
    hide EntCounted;
  }

  lemma AppendPartition(b: Books, e: Ent, tree: Tree, all: set<int>)
    requires Points(b.log, tree) && Partition(b, tree, all)
    ensures Points(b.log + [e], tree) && Partition(b.(log := b.log + [e]), tree, all)
  {
    var log1 := b.log + [e];
    forall p | p in tree
      ensures tree[p] < |log1| && Holds(log1[tree[p]], p) && BlockAt(log1, tree, p) == BlockAt(b.log, tree, p) {}
    forall x | x in all - b.free - b.retained ensures MapsTo(log1, tree, x) {
      assert MapsTo(b.log, tree, x);
      var p :| p in tree && BlockAt(b.log, tree, p) == x;
      assert BlockAt(log1, tree, p) == x;
    }
  }

  /** An entry that touches no page: a link change, or a set-attribute entry that
      records a size no mapped page lies past. */
  ghost predicate Harmless(e: Ent, tree: Tree) {
    !e.Write? && (e.SetAttr? ==> forall p | p in tree :: p < e.first)
  }

  lemma HarmlessKeeps(b: Books, tree: Tree, all: set<int>, exact: bool, e: Ent)
    requires Consistent(b, tree, all, exact) && Harmless(e, tree)
    ensures Consistent(b.(log := b.log + [e]), tree, all, exact)
  {
    hide Count, EntCounted, Counted, Partition, NoHole;
    forall p: nat ensures p in tree ==> Last(b.log + [e], p, false) == By(tree[p])
                  ensures p !in tree ==> Last(b.log + [e], p, false) == Nobody
    {
      LastAppend(b.log, e, p);
    }
    CountedAppend(b.log, tree, exact, e);
    AppendPartition(b, e, tree, all);
  }

  lemma {:induction false} TopPage(tree: Tree) returns (top: nat)
    ensures forall p | p in tree :: p < top
    decreases |tree|
  {
    if tree == map[] {
      top := 0;
    } else {
      var p :| p in tree;
      var rest := tree - {p};
      assert rest.Keys == tree.Keys - {p};
      top := TopPage(rest);
      if top <= p { top := p + 1; }
      forall q | q in tree ensures q < top { if q != p { assert q in rest; } }
    }
  }

  // ------------------------------------------------------------- whole runs

  datatype Op =
    | DoWrite(e: Ent, keep: nat -> bool)
    | DoTruncate(first: nat, top: nat, keep: nat -> bool)
    | DoOther(e: Ent)

  /** One operation on a file, as the methods below perform it. */
  ghost predicate Stepped(b: Books, tree: Tree, b': Books, tree': Tree, op: Op, exact: bool) {
    match op
    case DoWrite(e, keep) =>
      && e.Write? && e.invalid == 0 && Blocks(e.block, e.num) <= b.free && (exact ==> forall i :: !keep(i))
      && Points(b.log + [e], tree)
      && SettledState(b', Appended(b, e), tree, e.pgoff, e.pgoff + e.num, true, keep)
      && tree' == Painted(tree, e.pgoff, e.pgoff + e.num, |b.log|)
    case DoTruncate(first, top, keep) =>
      && first <= top && (forall p | p in tree :: p < top) && (exact ==> forall i :: !keep(i))
      && Points(b.log + [SetAttr(first)], tree)
      && SettledState(b', b.(log := b.log + [SetAttr(first)]), tree, first, top, true, keep)
      && tree' == Cut(tree, first)
    case DoOther(e) =>
      Harmless(e, tree) && b' == b.(log := b.log + [e]) && tree' == tree
  }

  lemma StepKeeps(b: Books, tree: Tree, b': Books, tree': Tree, op: Op, all: set<int>, exact: bool)
    requires Consistent(b, tree, all, exact) && Stepped(b, tree, b', tree', op, exact)
    ensures Consistent(b', tree', all, exact)
  {
    hide Consistent;
    match op
    case DoWrite(e, keep) => WriteKeeps(b, tree, all, exact, e, keep, b');
    case DoTruncate(first, top, keep) => TruncateKeeps(b, tree, all, exact, first, top, keep, b');
    case DoOther(e) => HarmlessKeeps(b, tree, all, exact, e);
  }

  ghost predicate IsRun(run: seq<(Books, Tree)>, ops: seq<Op>, all: set<int>, exact: bool) {
    |run| == |ops| + 1 && run[0] == (Books([], all, {}), map[])
    && forall i | 0 <= i < |ops| :: Stepped(run[i].0, run[i].1, run[i + 1].0, run[i + 1].1, ops[i], exact)
  }

  lemma {:induction false} RunConsistent(run: seq<(Books, Tree)>, ops: seq<Op>, all: set<int>, exact: bool, k: nat)
    requires IsRun(run, ops, all, exact) && k < |run|
    ensures Consistent(run[k].0, run[k].1, all, exact)
  {
    if k > 0 {
      RunConsistent(run, ops, all, exact, k - 1);
      StepKeeps(run[k - 1].0, run[k - 1].1, run[k].0, run[k].1, ops[k - 1], all, exact);
    }
  }

  /** After any run of writes, truncates and other operations, the live tree is the one
      that replaying the log yields, with or without the dead entries, and every data
      block is mapped, kept or free, exactly one of the three. */
  lemma LiveTreeIsReplay(run: seq<(Books, Tree)>, ops: seq<Op>, all: set<int>, exact: bool, k: nat)
    requires IsRun(run, ops, all, exact) && k < |run|
    ensures var (b, tree) := run[k];
            && Replays(tree, b.log, false) && Replays(tree, b.log, true)
            && Points(b.log, tree) && Partition(b, tree, all)
  {
    RunConsistent(run, ops, all, exact, k);
    var (b, tree) := run[k];
    forall p | p in tree ensures tree[p] < |b.log| && !Dead(b.log[tree[p]]) { DeadIsUnmapped(b, tree, all, exact, p); }
    SkippingIsSound(tree, b.log);
  }

  lemma EmptyReplays(log: seq<Ent>)
    ensures Replays(map[], log[..0], true) && Points(log[..0], map[]) && NoHole(map[])
  {
  }

  lemma NothingFreed(now: Books, was: Books, tree: Tree, a: nat, c: nat, keep: nat -> bool)
    requires Points(was.log, tree) && a <= c && SettledState(now, was, tree, a, c, false, keep)
    ensures now == was
  {
  }

  /** Appending an entry disturbs no page. */
  lemma StillPoints(b: Books, tree: Tree, all: set<int>, exact: bool, e: Ent)
    requires Consistent(b, tree, all, exact)
    ensures Points(b.log + [e], tree) && NoHole(tree) && forall p | p in tree :: tree[p] != |b.log|
  {
  }

  lemma PointsOn(log: seq<Ent>, i: nat, tree: Tree)
    requires i <= |log| && Points(log[..i], tree)
    ensures Points(log, tree) && forall p | p in tree :: tree[p] < i
  {
  }

  /** One more entry replayed. */
  lemma ReplaysOn(log: seq<Ent>, i: nat, tree: Tree, tree': Tree)
    requires i < |log| && Replays(tree, log[..i], true) && Points(log[..i], tree)
    requires tree' == if log[i].Write? && !Dead(log[i]) then Painted(tree, log[i].pgoff, log[i].pgoff + log[i].num, i)
                      else if log[i].SetAttr? then Cut(tree, log[i].first) else tree
    ensures Replays(tree', log[..i + 1], true) && Points(log[..i + 1], tree')
  {
    var log1 := log[..i + 1];
    assert log1[..i] == log[..i];
    forall p: nat
      ensures (p in tree' <==> Last(log1, p, true).By?) && (p in tree' ==> Last(log1, p, true) == By(tree'[p]))
    {
      assert p in tree <==> Last(log[..i], p, true).By?;
    }
  }
}
