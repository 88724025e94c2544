/** Failure recovery of a NOVA file's data blocks (nova/bbuild.c): the log is scanned
    once for each window of MAX_PGOFF pages, with a ring of that many block numbers,
    and the blocks left in the ring are marked in use. */
module NovaScan {
  import opened NovaFileIndex

  const MAX_PGOFF: nat := 262144
  const BLOCK_SIZE: nat := 4096

  /** A file log with the file size each entry records, in bytes. */
  ghost predicate SizedLog(log: seq<Ent>, sizes: seq<nat>) {
    |log| == |sizes|
    && (forall i | 0 <= i < |log| && log[i].SetAttr? :: log[i].first == (sizes[i] + BLOCK_SIZE - 1) / BLOCK_SIZE)
    && (forall i | 0 <= i < |log| && log[i].Write? ::
          0 < log[i].block && 0 < log[i].num
          && (log[i].pgoff + log[i].num - 1) * BLOCK_SIZE < sizes[i]
          && (i > 0 ==> SizeBefore(log, sizes, i) <= sizes[i]))
  }

  /** Pages that a file of `size` bytes reaches into. */
  function Pages(size: nat): nat { (size + BLOCK_SIZE - 1) / BLOCK_SIZE }

  lemma PagesIs(size: nat, p: nat)
    ensures p < Pages(size) <==> p * BLOCK_SIZE < size
  {
  }

  lemma PagesGrow(s: nat, t: nat)
    ensures s <= t ==> Pages(s) <= Pages(t)
    ensures s > 0 ==> (s - 1) / BLOCK_SIZE == Pages(s) - 1
  {
  }

  /** The size recorded last before entry `j`. */
  function SizeBefore(log: seq<Ent>, sizes: seq<nat>, j: nat): nat
    requires j <= |log| == |sizes|
  {
    if j == 0 then 0 else if log[j - 1].Other? then SizeBefore(log, sizes, j - 1) else sizes[j - 1]
  }

  /** No page is mapped past the size recorded last: a write reaches no further than the
      size it records, and only set-size entries make a file smaller. */
  lemma {:induction false} WithinSize(log: seq<Ent>, sizes: seq<nat>, j: nat, p: nat)
    requires SizedLog(log, sizes) && j <= |log| && Last(log[..j], p, true).By?
    ensures p * BLOCK_SIZE < SizeBefore(log, sizes, j)
    decreases j
  {
    var n := j - 1;
    assert log[..j][..n] == log[..n] && log[..j][n] == log[n];
    if Holds(log[n], p) && !Dead(log[n]) {
      assert p * BLOCK_SIZE <= (log[n].pgoff + log[n].num - 1) * BLOCK_SIZE;
    } else {
      WithinSize(log, sizes, n, p);
      if log[n].SetAttr? { assert p < log[n].first; }
    }
  }

  lemma SizedFirst(log: seq<Ent>, sizes: seq<nat>, j: nat)
    requires SizedLog(log, sizes) && j < |log| && log[j].SetAttr?
    ensures log[j].first == Pages(sizes[j])
  {
  }

  lemma StillMapped(log: seq<Ent>, sizes: seq<nat>, j: nat, p: nat)
    requires SizedLog(log, sizes) && j <= |log| && Mapped(log[..j], p) != 0
    ensures p * BLOCK_SIZE < SizeBefore(log, sizes, j)
  {
    WithinSize(log, sizes, j, p);
  }

  /** What one more entry does to a page. */
  lemma MappedStep(log: seq<Ent>, j: nat, p: nat)
    requires j < |log|
    ensures Mapped(log[..j + 1], p) ==
              if Holds(log[j], p) && !Dead(log[j]) then log[j].block + (p - log[j].pgoff)
              else if log[j].SetAttr? && log[j].first <= p then 0
              else Mapped(log[..j], p)
  {
    assert log[..j + 1][..j] == log[..j];
  }

  /** The greatest last page of a live write entry among the first `j`. */
  function LastPage(log: seq<Ent>, j: nat): nat
    requires j <= |log|
  {
    if j == 0 then 0
    else
      var prev := LastPage(log, j - 1);
      if log[j - 1].Write? && !Dead(log[j - 1]) && prev < log[j - 1].pgoff + log[j - 1].num - 1
      then log[j - 1].pgoff + log[j - 1].num - 1 else prev
  }

  lemma {:induction false} MappedBelow(log: seq<Ent>, j: nat, p: nat)
    requires j <= |log| && Last(log[..j], p, true).By?
    ensures p <= LastPage(log, j)
    decreases j
  {
    var n := j - 1;
    assert log[..j][..n] == log[..n] && log[..j][n] == log[n];
    if !(Holds(log[n], p) && !Dead(log[n])) { MappedBelow(log, n, p); }
  }

  lemma NoneAbove(log: seq<Ent>, p: nat)
    requires p > LastPage(log, |log|)
    ensures Mapped(log, p) == 0
  {
    assert log[..|log|] == log;
    if Last(log, p, true).By? { MappedBelow(log, |log|, p); }
  }

  class Scanner {
    const nvmm: array<int>
    var bm: set<int>
    var isize: nat

    ghost predicate Valid()
      reads this
    {
      nvmm.Length == MAX_PGOFF && nvmm as object != this
    }

    /** The ring holds what replaying `log` gives the pages of the window. */
    ghost predicate Window(log: seq<Ent>, base: nat)
      requires Valid()
      reads this, nvmm
    {
      forall x: nat | x < MAX_PGOFF :: nvmm[x] == Mapped(log, base + x)
    }

    ghost predicate Clean()
      requires Valid()
      reads this, nvmm
    {
      forall x: nat | x < MAX_PGOFF :: nvmm[x] == 0
    }

    /** nova_traverse_file_write_entry with nova_set_ring_array, no snapshots. */
    method WriteEntry(ghost log: seq<Ent>, ghost j: nat, e: Ent, size: nat, base: nat) returns (last: nat)
      requires Valid() && j < |log| && log[j] == e && e.Write? && 0 < e.num && Window(log[..j], base)
      modifies this`isize, nvmm
      ensures Window(log[..j + 1], base) && isize == size
      ensures last == if Dead(e) then 0 else e.pgoff + e.num - 1
    {
      isize := size;
      last := 0;
      forall p: nat { MappedStep(log, j, p); }
      if e.num != e.invalid {
        last := e.pgoff + e.num - 1;
        if e.pgoff < base + MAX_PGOFF && e.pgoff + e.num > base {
          var start := if e.pgoff < base then base else e.pgoff;
          var end := if e.pgoff + e.num > base + MAX_PGOFF then base + MAX_PGOFF else e.pgoff + e.num;
          var pgoff := start;
          while pgoff < end
            invariant start <= pgoff <= end && isize == size
            invariant forall x: nat | x < MAX_PGOFF ::
                        nvmm[x] == if start <= base + x < pgoff then e.block + (base + x - e.pgoff)
                            else Mapped(log[..j], base + x)
          {
            nvmm[pgoff - base] := e.block + (pgoff - e.pgoff);
            pgoff := pgoff + 1;
          }
        }
      }
    }

    /** nova_ring_setattr_entry, no snapshots: clear the ring from the first page past
        the new size up to the last page of the old one. */
    method SetattrEntry(ghost log: seq<Ent>, ghost sizes: seq<nat>, ghost j: nat, e: Ent, size: nat, base: nat)
      requires Valid() && SizedLog(log, sizes) && j < |log| && log[j] == e && e.SetAttr? && sizes[j] == size
      requires Window(log[..j], base) && (Clean() || isize == SizeBefore(log, sizes, j))
      modifies this`isize, nvmm
      ensures Window(log[..j + 1], base) && isize == size
    {
      hide Mapped, Pages, SizeBefore;
      assert e.first == Pages(size) by { SizedFirst(log, sizes, j); }
      forall p: nat | base <= p < base + MAX_PGOFF && Mapped(log[..j], p) != 0 ensures p < Pages(isize) {
        assert nvmm[p - base] == Mapped(log[..j], base + (p - base));
        StillMapped(log, sizes, j, p);
        PagesIs(isize, p);
      }
      PagesGrow(isize, size);
      PagesGrow(size, isize);
      if isize > size {
        var first := Pages(size);
        var last := (isize - 1) / BLOCK_SIZE;
        assert last == Pages(isize) - 1;
        if first <= last {
          if first < base { first := base; }
          if last > base + MAX_PGOFF - 1 { last := base + MAX_PGOFF - 1; }
          var pgoff := first;
          while pgoff <= last
            invariant first <= pgoff && (pgoff <= last + 1 || pgoff == first) && isize == old(isize)
            invariant forall x: nat | x < MAX_PGOFF ::
                        nvmm[x] == if first <= base + x < pgoff then 0 else Mapped(log[..j], base + x)
          {
            nvmm[pgoff - base] := 0;
            pgoff := pgoff + 1;
          }
        }
      }
      forall x: nat | x < MAX_PGOFF ensures nvmm[x] == Mapped(log[..j + 1], base + x) {
        MappedStep(log, j, base + x);
        assert Mapped(log[..j], base + x) == 0 || base + x < Pages(isize);
      }
      isize := size;
    }
  
    /** nova_set_file_bm: mark the blocks in the ring and clear it. */
    method SetFileBm(ghost log: seq<Ent>, base: nat, lastBlocknr: nat)
      requires Valid() && Window(log, base) && base <= lastBlocknr && LastPage(log, |log|) <= lastBlocknr
      modifies this`bm, nvmm
      ensures Clean()
      ensures bm == old(bm) + set p: nat | base <= p < base + MAX_PGOFF && Mapped(log, p) != 0 :: Mapped(log, p)
    {
      var last := if lastBlocknr >= base + MAX_PGOFF then MAX_PGOFF - 1 else lastBlocknr - base;
      forall x: nat | last < x < MAX_PGOFF ensures nvmm[x] == 0 {
        assert nvmm[x] == Mapped(log, base + x);
        NoneAbove(log, base + x);
      }
      var pgoff := 0;
      while pgoff <= last
        invariant 0 <= pgoff <= last + 1
        invariant forall x: nat | x < MAX_PGOFF :: nvmm[x] == if x < pgoff then 0 else Mapped(log, base + x)
        invariant bm == old(bm) + set p: nat | base <= p < base + pgoff && Mapped(log, p) != 0 :: Mapped(log, p)
      {
        var b := nvmm[pgoff];
        if b != 0 {
          bm := bm + {b};
          nvmm[pgoff] := 0;
        }
        pgoff := pgoff + 1;
      }
      forall p: nat | base + last < p < base + MAX_PGOFF ensures Mapped(log, p) == 0 { NoneAbove(log, p); }
    }

    /** One scan of the log for the window at `base`. */
    method ScanLog(log: seq<Ent>, sizes: seq<nat>, base: nat, lastBlocknr: nat) returns (last: nat)
      requires Valid() && SizedLog(log, sizes) && Clean()
      modifies this`isize, nvmm
      ensures Window(log, base)
      ensures last == if lastBlocknr < LastPage(log, |log|) then LastPage(log, |log|) else lastBlocknr
    {
      last := lastBlocknr;
      var j := 0;
      while j < |log|
        invariant 0 <= j <= |log| && Window(log[..j], base)
        invariant Clean() || isize == SizeBefore(log, sizes, j)
        invariant last == if lastBlocknr < LastPage(log, j) then LastPage(log, j) else lastBlocknr
      {
        if log[j].SetAttr? {
          SetattrEntry(log, sizes, j, log[j], sizes[j], base);
        } else if log[j].Write? {
          var currLast := WriteEntry(log, j, log[j], sizes[j], base);
          if last < currLast { last := currLast; }
        } else {
          forall p: nat { MappedStep(log, j, p); }
        }
        j := j + 1;
      }
      assert log[..j] == log;
    }

    /** nova_traverse_file_inode_log: scan window after window until the last page. */
    method TraverseFileInodeLog(log: seq<Ent>, sizes: seq<nat>)
      requires Valid() && SizedLog(log, sizes) && Clean()
      modifies this, nvmm
      ensures Clean()
      ensures bm == old(bm) + MappedBlocks(log, LastPage(log, |log|) + 1)
      ensures forall p: nat :: Mapped(log, p) != 0 ==> p <= LastPage(log, |log|)
    {
      var base: nat, last: nat := 0, 0;
      var again := true;
      while again
        invariant Clean() && base <= last + MAX_PGOFF && last <= LastPage(log, |log|)
        invariant again ==> base <= LastPage(log, |log|) && (base > 0 ==> last == LastPage(log, |log|))
        invariant !again ==> last == LastPage(log, |log|) < base
        invariant bm == old(bm) + MappedBlocks(log, base)
        decreases again, LastPage(log, |log|) + MAX_PGOFF - base
      {
        last := ScanLog(log, sizes, base, last);
        SetFileBm(log, base, last);
        again := last >= base + MAX_PGOFF;
        base := base + MAX_PGOFF;
      }
      forall p: nat | LastPage(log, |log|) < p ensures Mapped(log, p) == 0 { NoneAbove(log, p); }
    }
  }

  /** The blocks of the pages below `top` in the replayed map. */
  ghost function MappedBlocks(log: seq<Ent>, top: nat): set<int> {
    set p: nat | p < top && Mapped(log, p) != 0 :: Mapped(log, p)
  }

  /** The windowed scan marks exactly the data blocks of the tree that the unbounded
      replay of nova_rebuild_file_inode_tree builds from the same log. */
  lemma ScanMarksRebuiltTree(log: seq<Ent>, sizes: seq<nat>, tree: Tree)
    requires SizedLog(log, sizes) && Replays(tree, log, true)
    ensures Points(log, tree)
    ensures MappedBlocks(log, LastPage(log, |log|) + 1) == set p | p in tree :: BlockAt(log, tree, p)
  {
    forall p | p in tree ensures tree[p] < |log| && Holds(log[tree[p]], p) {
      assert Last(log, p, true) == By(tree[p]);
    }
    var marked := MappedBlocks(log, LastPage(log, |log|) + 1);
    forall p: nat ensures Mapped(log, p) != 0 <==> p in tree
                  ensures p in tree ==> Mapped(log, p) == BlockAt(log, tree, p) && p <= LastPage(log, |log|)
    {
      assert p in tree <==> Last(log, p, true).By?;
      if p > LastPage(log, |log|) { NoneAbove(log, p); }
    }
    forall x | x in (set p | p in tree :: BlockAt(log, tree, p)) ensures x in marked {
      var p :| p in tree && BlockAt(log, tree, p) == x;
      assert Mapped(log, p) == x;
    }
  }
}
