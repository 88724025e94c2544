/** Garbage collection of a NOVA file log (nova/gc.c): fast GC drops pages with no valid
    entry, thorough GC copies the valid entries of all pages but the tail page to fresh
    pages. */
module NovaGc {
  import opened NovaFileIndex
  import opened NovaLogPages
  import opened NovaFastGc
  import opened NovaThoroughGc
  import opened FreshIds

  class NovaLog {
    var pages: Heap
    var head: nat
    var tailPage: nat
    var tree: map<nat, Addr>
    ghost var chain: seq<nat>   // from the head to the tail page
    ghost var rest: seq<nat>    // allocated pages after the tail page

    ghost predicate Valid()
      reads this
    {
      IsLog(pages, head, tailPage, chain, rest)
    }

    /** nova_free_log_blocks on one page, which no longer is in the log. */
    method FreePage(x: nat, ghost log: seq<nat>)
      requires x in pages && x !in log && IsChain(pages, log)
      modifies this`pages
      ensures pages == old(pages) - {x} && IsChain(pages, log)
    {
      pages := pages - {x};
      ChainFrame(old(pages), pages, log);
    }

    /** The scan of nova_inode_log_fast_gc: unlink and free every invalid page between
        the first page and the tail page. `dead` tells whether the first page has to be
        freed once the head has moved, `newHead` where the head will be. */
    method DropInvalidPages() returns (newHead: nat, dead: bool, ghost live: seq<nat>)
      requires Valid()
      modifies this`pages
      ensures live == LivePages(old(pages), chain[..|chain| - 1]) + [tailPage]
      ensures newHead == live[0] && (dead <==> |chain| > 1 && PageInvalid(old(pages)[head]))
      ensures IsChain(pages, (if dead then [head] else []) + live + rest)
      ensures SamePages(old(pages), pages)
      ensures forall x | x in old(pages) && x !in pages ::
                x in chain && x != tailPage && x != head && PageInvalid(old(pages)[x])
      ensures forall x | x in chain && x != head && x != tailPage && PageInvalid(old(pages)[x]) :: x !in pages
      ensures forall x | x in pages && (x !in chain || x == tailPage) :: x in old(pages) && pages[x] == old(pages)[x]
    {
      hide *;
      hide Scanned, IsChain;
      ghost var h0, i, k := pages, 0, |chain| - 1;
      ValidFacts();
      ScanStart(pages, chain, rest);
      var scan := Scan(0, false, 0, false);
      var curr := head;
      live := [];
      while curr != tailPage
        invariant 0 <= i <= k && curr == chain[i]
        invariant Scanned(h0, pages, chain, rest, i, scan, live)
        decreases k - i
      {
        ScanHere(h0, pages, chain, rest, i, scan, live);
        ghost var was, before, after := pages, Before(chain, scan, live), chain[i + 1..] + rest;
        var next := pages[curr].next;
        var invalid := CheckPage(curr, scan.last, curr == head, before, after);
        ScanNext(h0, was, pages, chain, rest, i, scan, live, invalid);
        scan := NextScan(scan, curr, curr == head, invalid);
        if !invalid { live := live + [curr]; }
        curr := next;
        i := i + 1;
      }
      newHead, dead := if scan.found then scan.newHead else curr, scan.dead;
      ScanEnd(h0, pages, chain, rest, i, scan, live);
      live := live + [tailPage];
    }

    /** nova_inode_log_fast_gc up to the choice of thorough GC: drop the invalid pages,
        link the pages `added`, which start at `newBlock`, behind the last page of the
        log, move the head, free the first page if it is invalid. */
    method FastGc(currTail: nat, newBlock: nat, numPages: nat, ghost added: seq<nat>)
      requires Valid() && currTail == (chain + rest)[|chain + rest| - 1]
      requires Spare(pages, chain + rest, added) && |added| == numPages && (added != [] ==> newBlock == added[0])
      modifies this`pages, this`head, this`chain, this`rest
      ensures Valid() && chain == LivePages(old(pages), old(chain)[..|old(chain)| - 1]) + [tailPage]
      ensures rest == old(rest) + added && SamePages(old(pages), pages)
      ensures forall x | x in old(pages) ::
                x !in pages <==> x in old(chain) && x != tailPage && PageInvalid(old(pages)[x])
    {
      hide IsChain, LivePages, CountersOK, IsLog, InvalidFreed, In, Spare, SamePages, PageInvalid;
      ghost var h0, chain0, rest0 := pages, chain, rest;
      ValidFacts();
      var newHead, dead;
      ghost var live;
      newHead, dead, live := DropInvalidPages();
      ghost var h1 := pages;
      FastMid(h0, h1, chain, rest, live, added, dead);
      MoveHead(newHead, dead, currTail, newBlock, numPages, live, added);
      FastDone(h0, h1, pages, chain0, live, rest0, added, dead);
    }

    method MoveHead(newHead: nat, dead: bool, currTail: nat, newBlock: nat, numPages: nat, ghost live: seq<nat>,
                    ghost added: seq<nat>)
      requires live != [] && newHead == live[0]
      requires IsChain(pages, (if dead then [head] else []) + live + rest) && IsChain(pages, added)
      requires forall x | x in added :: x !in (if dead then [head] else []) + live + rest
      requires |added| == numPages && (added != [] ==> newBlock == added[0] && pages[added[|added| - 1]].next == 0)
      requires currTail == (live + rest)[|live + rest| - 1] && currTail in pages && pages[currTail].next == 0
      modifies this`pages, this`head, this`chain, this`rest
      ensures head == newHead && chain == live && rest == old(rest) + added
      ensures IsChain(pages, chain + rest) && IsChain(pages, chain)
      ensures (chain + rest)[|chain + rest| - 1] in pages && pages[(chain + rest)[|chain + rest| - 1]].next == 0
      ensures SamePages(old(pages), pages)
      ensures forall x :: x in pages <==> x in old(pages) && !(dead && x == old(head))
    {
      hide IsChain;
      ghost var h1, pre := pages, if dead then [head] else [];
      if numPages > 0 {
        pages := pages[currTail := pages[currTail].(next := newBlock)];
      }
      AttachAdded(h1, pages, pre, live, rest, added);
      var oldHead := head;
      head := newHead;
      chain, rest := live, rest + added;
      if dead {
        assert oldHead in pre;
        FreePage(oldHead, chain + rest);
      }
      LogParts(pages, chain, rest);
    }

    lemma ValidFacts()
      requires Valid()
      ensures chain != [] && chain[0] == head && chain[|chain| - 1] == tailPage
      ensures IsChain(pages, chain + rest) && IsChain(pages, chain) && CountersOK(pages, chain)
      ensures In(pages, chain) && (chain + rest)[|chain + rest| - 1] in pages
      ensures pages[(chain + rest)[|chain + rest| - 1]].next == 0
    {
      LogParts(pages, chain, rest);
    }

    /** curr_page_invalid, and free_curr_page unless the page is the first. */
    method CheckPage(curr: nat, last: nat, first: bool, ghost before: seq<nat>, ghost after: seq<nat>)
      returns (invalid: bool)
      requires IsChain(pages, before + [curr] + after) && curr in pages
      requires !first ==> before != [] && last == before[|before| - 1]
      modifies this`pages
      ensures invalid == PageInvalid(old(pages)[curr])
      ensures IsChain(pages, (if invalid && !first then before else before + [curr]) + after)
      ensures SamePages(old(pages), pages)
      ensures forall x :: x in pages <==> x in old(pages) && !(invalid && !first && x == curr)
      ensures forall x | x in pages && (first || x != last) :: pages[x] == old(pages)[x]
    {
      invalid := pages[curr].inv == pages[curr].num;
      if invalid && !first { UnlinkAndFree(last, curr, before, after); }
    }

    /** free_curr_page. */
    method UnlinkAndFree(last: nat, curr: nat, ghost before: seq<nat>, ghost after: seq<nat>)
      requires before != [] && last == before[|before| - 1] && IsChain(pages, before + [curr] + after)
      modifies this`pages
      ensures IsChain(pages, before + after) && SamePages(old(pages), pages)
      ensures forall x :: x in pages <==> x in old(pages) && x != curr
      ensures forall x | x in pages && x != last :: pages[x] == old(pages)[x]
    {
      Unlink(pages, before, curr, after);
      pages := pages[last := pages[last].(next := pages[curr].next)];
      FreePage(curr, before + after);
    }

    // ---------------------------------------------------------- thorough GC

    /** A block the allocator may hand out. */
    method FreshPage() returns (x: nat)
      ensures x != 0 && x !in pages
    {
      FreshExists(pages.Keys + {0});
      x :| x !in pages.Keys + {0};
    }

    /** nova_allocate_inode_log_pages: `n` empty pages, each linked to the next. */
    method AllocatePages(n: nat) returns (first: nat, ghost new': seq<nat>)
      requires n >= 1
      modifies this`pages
      ensures |new'| == n && first == new'[0]
      ensures NewHeap(old(pages), pages, new') && EndedChain(pages, new') && Blank(pages, new')
    {
      hide NewHeap, EndedChain, IsChain;
      ghost var h0 := pages;
      first := FreshPage();
      pages := pages[first := EmptyPage];
      new' := [first];
      FirstPage(h0, first);
      var last, i := first, 1;
      while i < n
        invariant 1 <= i <= n && |new'| == i && first == new'[0] && last == new'[i - 1]
        invariant NewHeap(h0, pages, new') && EndedChain(pages, new') && Blank(pages, new')
      {
        var x := FreshPage();
        ExtendHeap(h0, pages, new', x);
        ExtendChain(pages, new', x);
        assert last in new';
        pages := pages[last := pages[last].(next := x)][x := EmptyPage];
        new' := new' + [x];
        last, i := x, i + 1;
      }
    }

    /** nova_free_contiguous_log_blocks: free the chain `c` from `start`, run by run. No
        page of it belongs to the log. */
    method FreeContiguous(start: nat, ghost c: seq<nat>, ghost log: seq<nat>)
      requires EndedChain(pages, c) && (if c == [] then start == 0 else start == c[0])
      requires IsChain(pages, log) && forall x | x in c :: x !in log
      modifies this`pages
      ensures pages == old(pages) - SetOf(c) && IsChain(pages, log)
    {
      ghost var h0, j := pages, 0;
      var curr: nat, first: nat, num: nat := start, 0, 0;
      while curr != 0
        invariant j <= |c| && num <= j && (first == 0 <==> num == 0) && (num == 0 ==> j == 0)
        invariant if j == |c| then curr == 0 else curr == c[j]
        invariant c[j - num..j] == Consecutive(first, num)
        invariant pages == h0 - SetOf(c[..j - num])
        decreases |c| - j
      {
        var blocknr := curr;
        NotYetFreed(h0, c, j, j - num);
        curr := pages[curr].next;
        if first == 0 {
          first, num := blocknr, 1;
        } else if blocknr == first + num {
          assert c[j - num..j + 1] == c[j - num..j] + [blocknr];
          assert Consecutive(first, num + 1) == Consecutive(first, num) + [blocknr];
          num := num + 1;
        } else {
          RunFreed(h0, c, j - num, j);
          FreeRun(first, num);
          first, num := blocknr, 1;
        }
        j := j + 1;
        assert c[j - 1] == blocknr;
      }
      if first != 0 {
        RunFreed(h0, c, j - num, j);
        FreeRun(first, num);
      }
      assert c[..|c|] == c;
      ChainFrame(h0, pages, log);
    }

    /** nova_free_log_blocks. */
    method FreeRun(first: nat, num: nat)
      modifies this`pages
      ensures pages == old(pages) - SetOf(Consecutive(first, num))
    {
      pages := pages - SetOf(Consecutive(first, num));
    }

    /** nova_gc_assign_file_entry: slots of the entry's own pages that refer to it. */
    method AssignFileEntry(e: Ent, a: Addr, b: Addr)
      requires e.Write? && forall p | p in tree && tree[p] == a :: Holds(e, p)
      modifies this`tree
      ensures tree == Repoint(old(tree), a, b)
    {
      ghost var t0 := tree;
      for i := 0 to e.num
        invariant tree.Keys == t0.Keys
        invariant forall p | p in tree :: tree[p] == if t0[p] == a && p < e.pgoff + i then b else t0[p]
      {
        var p := e.pgoff + i;
        if p in tree && tree[p] == a { tree := tree[p := b]; }
      }
    }

    /** nova_get_append_head on the new log: room for `size` bytes at the page returned. */
    method AppendHead(np: nat, used: nat, size: nat, ghost c: Copy) returns (np': nat, used': nat, ghost c': Copy)
      requires c.Here(pages, tree, np, used) && size <= LOG_BLOCK_TAIL
      modifies this`pages
      ensures c'.Here(pages, tree, np', used') && used' + size <= LOG_BLOCK_TAIL
      ensures c' == c.(done := c'.done, left := c'.left) && c.done <= c'.done
    {
      hide Copying, Bytes;
      np', used', c' := np, used, c;
      if used + size > LOG_BLOCK_TAIL {
        c.Facts(pages, tree, np, used);
        if pages[np].next == 0 {
          var x := FreshPage();
          CopyExtend(c.h0, pages, c.tree0, tree, c.chain, c.i, c.idx, c.done, c.moved, x);
          pages := pages[np := pages[np].(next := x)][x := EmptyPage];
          c' := c.(left := [x]);
        }
        c'.Facts(pages, tree, np, used);
        np', used' := pages[np].next, 0;
        c'.Move(pages, tree, np, used);
        c' := c'.(done := c'.done + [c'.left[0]], left := c'.left[1..]);
      }
    }

    /** One turn of the copying loop on the entry `idx` of page `cp`. */
    method CopyEntry(cp: nat, idx: nat, np: nat, used: nat, ghost c: Copy)
      returns (np': nat, used': nat, ghost c': Copy)
      requires c.Here(pages, tree, np, used) && SlotsHold(c.h0, c.tree0)
      requires cp == c.chain[c.i] && idx == c.idx && idx < |c.h0[cp].ents|
      modifies this`pages, this`tree
      ensures c'.Here(pages, tree, np', used')
      ensures c' == c.(idx := idx + 1, done := c'.done, left := c'.left, moved := c'.moved) && c.done <= c'.done
    {
      hide Copying, Bytes, Drop, SlotsHold, Repoint;
      c.Old(pages, tree, np, used);
      np', used', c' := np, used, c;
      var g := pages[cp].ents[idx];
      if Drop(g) {
        CopySkip(c.h0, pages, c.tree0, tree, c.chain, c.i, c.idx, c.done, c.left, c.moved);
        c' := c.(idx := idx + 1);
      } else {
        np', used', c' := AppendHead(np, used, Size(g), c);
        var a, b := Addr(cp, idx), Addr(np', |pages[np'].ents|);
        c'.SlotsOf(pages, tree, np', used');
        CopyPush(c.h0, pages, c.tree0, tree, c.chain, c.i, c.idx, c'.done, c'.left, c.moved);
        BytesSnoc(pages[np'].ents, g);
        pages := pages[np' := pages[np'].(ents := pages[np'].ents + [g], num := pages[np'].num + 1)];
        if g.e.Write? {
          AssignFileEntry(g.e, a, b);
        } else {
          RepointNone(tree, a, b);
        }
        used' := used' + Size(g);
        c' := c'.(idx := idx + 1, moved := c.moved[a := b]);
      }
    }

    /** The copying loop, up to the tail page. Returns the last page written and the last
        page copied from. */
    method CopyLog(first: nat, ghost c0: Copy) returns (np: nat, oldPage: nat, ghost c: Copy)
      requires c0.Here(pages, tree, first, 0) && SlotsHold(c0.h0, c0.tree0) && c0.i == 0 && c0.idx == 0
      requires c0.chain == chain
      requires |chain| > 1 && head == chain[0] && tailPage == chain[|chain| - 1] && NoEmptyPage(c0.h0, chain)
      modifies this`pages, this`tree
      ensures np in pages && c.Here(pages, tree, np, Bytes(pages[np].ents))
      ensures c.i == |chain| - 1 && c.idx == 0 && c.chain == chain && c.h0 == c0.h0 && c.tree0 == c0.tree0
      ensures oldPage == chain[|chain| - 2] && (c0.done <= c.done)
    {
      hide Copying, Bytes, SlotsHold, NoEmptyPage;
      np, c := first, c0;
      c.Old(pages, tree, np, 0);
      var cp, idx, used := head, 0, 0;
      ghost var k := |chain| - 1;
      while true
        invariant c.Here(pages, tree, np, used)
        invariant c == c0.(i := c.i, idx := c.idx, done := c.done, left := c.left, moved := c.moved)
        invariant c.i < k && cp == chain[c.i] && idx == c.idx && c0.done <= c.done
        invariant cp in c.h0 && idx <= |c.h0[cp].ents|
        decreases k - c.i, |c.h0[cp].ents| - idx
      {
        c.Old(pages, tree, np, used);
        oldPage := cp;
        if idx == |pages[cp].ents| {
          CopyNextPage(c.h0, pages, c.tree0, tree, c.chain, c.i, c.idx, c.done, c.left, c.moved);
          cp, idx := pages[cp].next, 0;
          c := c.(i := c.i + 1, idx := 0);
        }
        c.NotTail(pages, tree, np, used);
        if cp == tailPage { break; }
        np, used, c := CopyEntry(cp, idx, np, used, c);
        idx := idx + 1;
      }
    }

    /** Link the new log to the tail page, switch the head to it, unlink the old log, and
        only then free the old log. */
    method SwitchLog(newHead: nat, np: nat, oldPage: nat, ghost c: Copy)
      requires np in pages && c.Here(pages, tree, np, Bytes(pages[np].ents)) && c.done[0] == newHead
      requires IsLog(c.h0, head, tailPage, chain, rest) && |chain| > 1
      requires c.i == |chain| - 1 && c.idx == 0 && c.chain == chain && oldPage == chain[|chain| - 2]
      modifies this`pages, this`head, this`chain
      ensures Valid() && chain == c.done + [tailPage]
      ensures forall x :: x in pages <==> x in c.done || (x in c.h0 && x !in old(chain)[..|old(chain)| - 1])
      ensures forall x | x in pages && x in c.h0 :: pages[x] == c.h0[x]
      ensures forall x | x in pages && x !in c.h0 :: x in old(pages) && pages[x].ents == old(pages)[x].ents
    {
      hide IsLog, Copying, IsChain, EndedChain, NewHeap, Bytes;
      ghost var h, k, last := pages, |chain| - 1, [tailPage] + rest;
      ghost var from := chain[..k];
      c.LeftFree(pages, tree, np, Bytes(pages[np].ents), head, tailPage, rest);
      var next := pages[np].next;
      if next > 0 { FreeContiguous(next, c.left, chain + rest); }
      assert pages == h - SetOf(c.left);
      c.ReadyToLink(h, tree, np, head, tailPage, rest);
      LinkNewLog(pages, c.done, from, last);
      pages := pages[np := pages[np].(next := tailPage)];
      var oldHead := head;
      head := newHead;
      assert pages[oldPage].next == tailPage;
      pages := pages[oldPage := pages[oldPage].(next := 0)];
      FreeContiguous(oldHead, from, c.done + last);
      c.Switched(h, pages, tree, np, oldPage, oldHead, tailPage, rest);
      chain := c.done + [tailPage];
    }

    /** nova_inode_log_thorough_gc: copy the valid entries of all pages but the tail page.
        `available` is what the allocator can give; short of it, the log stays. */
    method ThoroughGc(blocks: nat, available: nat) returns (ghost moved: map<Addr, Addr>)
      requires Valid() && SlotsHold(pages, tree) && NoEmptyPage(pages, chain) && blocks >= 1
      modifies this`pages, this`head, this`tree, this`chain
      ensures Valid()
      ensures |old(chain)| == 1 || available < blocks ==>
                chain == old(chain) && tree == old(tree)
                && forall x | x in old(pages) :: x in pages && pages[x] == old(pages)[x]
      ensures |old(chain)| > 1 && available >= blocks ==>
                Compacted(old(pages), pages, old(chain), chain, old(tree), tree, moved)
    {
      hide IsLog, IsChain, NewHeap, EndedChain, NoEmptyPage, SlotsHold, Copying, Moves, MovedAll, Repointed, Content,
          Blank;
      moved := map[];
      ValidFacts();
      ghost var h0, tree0 := pages, tree;
      HeadOnce(pages, chain, 0);
      if head != tailPage {
        if available < blocks {
          if available > 0 {
            ghost var lost;
            var first;
            first, lost := AllocatePages(available);
            LogGrown(h0, pages, lost, head, tailPage, chain, rest);
          }
        } else {
          var first;
          ghost var new';
          first, new' := AllocatePages(blocks);
          ghost var c := Copy(h0, tree0, chain, 0, 0, [first], new'[1..], map[]);
          c.Start(pages, new');
          var np, oldPage;
          np, oldPage, c := CopyLog(first, c);
          ghost var h1, chain0 := pages, chain;
          SwitchLog(first, np, oldPage, c);
          c.Done(h1, pages, tree, np, tailPage);
          moved := c.moved;
        }
      }
    }

    /** The block that replaying the log gives a page, 0 for none. */
    ghost function FileBlock(p: nat): int
      requires Valid()
      reads this
    {
      BlockOf(Content(pages, chain), p)
    }

    /** The tree is the cache of the log. */
    ghost predicate Coherent()
      reads this
    {
      Valid() && StaleOK(Content(pages, chain)) && TreeOK(pages, chain, tree)
    }

    /** nova_inode_log_fast_gc with whatever it decides about thorough GC: the file that the
        log and the tree describe stays the same, page by page, and neither the tail page
        nor the pages after it are freed. */
    method CollectLog(currTail: nat, newBlock: nat, numPages: nat, thorough: bool, blocks: nat, available: nat,
                      ghost added: seq<nat>)
      requires Coherent() && currTail == (chain + rest)[|chain + rest| - 1] && blocks >= 1
      requires Spare(pages, chain + rest, added) && |added| == numPages && (added != [] ==> newBlock == added[0])
      modifies this`pages, this`head, this`tree, this`chain, this`rest
      ensures Coherent() && rest == old(rest) + added
      ensures forall p: nat :: FileBlock(p) == old(FileBlock(p))
      ensures tailPage in pages && pages[tailPage].ents == old(pages)[tailPage].ents
      ensures tree.Keys == old(tree).Keys
      ensures forall p | p in tree :: EntryAt(pages, tree[p]) == EntryAt(old(pages), old(tree)[p])
    {
      hide IsLog, IsChain, StaleOK, Content, BlockOf, CountersOK, LivePages, Spare, Compacted, SamePages;
      ghost var h0, chain0, tree0, rest0 := pages, chain, tree, rest;
      ValidFacts();
      FastGc(currTail, newBlock, numPages, added);
      ghost var h1, chain1 := pages, chain;
      ValidFacts();
      FastStep(h0, h1, chain0, chain1, tree);
      if thorough {
        CollectReady(h0, h1, chain0, chain1, tree);
        ghost var moved := ThoroughGc(blocks, available);
        ValidFacts();
        if |chain1| > 1 && available >= blocks {
          ThoroughStep(h1, pages, chain1, chain, tree0, tree, moved);
        } else {
          GrownStep(h1, pages, chain1, tree);
        }
      }
    }
  }

  /** The entry at an address. */
  ghost function EntryAt(h: Heap, a: Addr): Entry {
    if a.page in h && a.idx < |h[a.page].ents| then h[a.page].ents[a.idx] else Entry(Other, true)
  }

  lemma FastStep(h0: Heap, h: Heap, chain: seq<nat>, live: seq<nat>, tree: map<nat, Addr>)
    requires chain != [] && In(h0, chain) && CountersOK(h0, chain) && SamePages(h0, h) && In(h, live)
    requires live == LivePages(h0, chain[..|chain| - 1]) + [chain[|chain| - 1]]
    requires StaleOK(Content(h0, chain)) && TreeOK(h0, chain, tree)
    ensures StaleOK(Content(h, live)) && TreeOK(h, live, tree)
    ensures forall p: nat :: BlockOf(Content(h, live), p) == BlockOf(Content(h0, chain), p)
    ensures forall p | p in tree :: EntryAt(h, tree[p]) == EntryAt(h0, tree[p])
    ensures var t := chain[|chain| - 1]; h[t].ents == h0[t].ents
  {
    hide StaleOK, Content, BlockOf, LivePages, CountersOK;
    FastKeepsFile(h0, h, chain, live, tree);
    assert chain[|chain| - 1] in live;
  }

  lemma CollectReady(h0: Heap, h: Heap, chain: seq<nat>, live: seq<nat>, tree: map<nat, Addr>)
    requires chain != [] && In(h0, chain) && CountersOK(h0, chain) && SamePages(h0, h) && In(h, live)
    requires live == LivePages(h0, chain[..|chain| - 1]) + [chain[|chain| - 1]]
    requires TreeOK(h, live, tree)
    ensures SlotsHold(h, tree) && NoEmptyPage(h, live)
  {
    hide Content, BlockOf;
    var l := LivePages(h0, chain[..|chain| - 1]);
    forall i | 0 <= i < |live| - 1 ensures live[i] in h && h[live[i]].ents != [] {
      assert live[i] == l[i] && l[i] in l;
    }
  }

  lemma ThoroughStep(h0: Heap, h: Heap, chain0: seq<nat>, chain: seq<nat>, tree0: map<nat, Addr>, tree: map<nat, Addr>,
                     moved: map<Addr, Addr>)
    requires Compacted(h0, h, chain0, chain, tree0, tree, moved)
    requires In(h0, chain0) && In(h, chain) && StaleOK(Content(h0, chain0)) && TreeOK(h0, chain0, tree0)
    ensures StaleOK(Content(h, chain)) && TreeOK(h, chain, tree)
    ensures forall p: nat :: BlockOf(Content(h, chain), p) == BlockOf(Content(h0, chain0), p)
    ensures tree.Keys == tree0.Keys && forall p | p in tree :: EntryAt(h, tree[p]) == EntryAt(h0, tree0[p])
    ensures chain0 != [] && var t := chain0[|chain0| - 1]; t in h0 && t in h && h[t].ents == h0[t].ents
  {
    hide StaleOK, Content, BlockOf, Seen, Keep, Moves, MovedAll, Repointed, IsChain, Bytes;
    var k, n := |chain0| - 1, |chain| - 1;
    assert chain == chain[..n] + [chain0[k]];
    TailLast(h0, chain0);
    assert chain0[k] in chain0;
    ThoroughKeepsFile(h0, h, chain0, chain[..n], moved, tree0, tree);
    SlotsSame(h0, h, chain0, chain[..n], tree0, tree, moved);
  }

  lemma SlotsSame(h0: Heap, h: Heap, chain: seq<nat>, done: seq<nat>, tree0: map<nat, Addr>, tree: map<nat, Addr>,
                  moved: map<Addr, Addr>)
    requires IsChain(h0, chain) && chain != [] && TreeOK(h0, chain, tree0) && Repointed(tree0, tree, moved)
    requires Moves(h0, h, done, moved) && MovedAll(h0, chain, |chain| - 1, 0, moved)
    requires In(h, done + [chain[|chain| - 1]]) && h[chain[|chain| - 1]].ents == h0[chain[|chain| - 1]].ents
    ensures tree.Keys == tree0.Keys && forall p | p in tree :: EntryAt(h, tree[p]) == EntryAt(h0, tree0[p])
  {
    hide Content, BlockOf, Moves, MovedAll, IsChain;
    forall p | p in tree ensures p in tree0 && EntryAt(h, tree[p]) == EntryAt(h0, tree0[p]) {
      SlotFollows(h0, h, chain, done, moved, tree0[p]);
    }
  }

  lemma GrownStep(h0: Heap, h: Heap, chain: seq<nat>, tree: map<nat, Addr>)
    requires In(h0, chain) && chain != [] && StaleOK(Content(h0, chain)) && TreeOK(h0, chain, tree)
    requires forall x | x in h0 :: x in h && h[x] == h0[x]
    ensures In(h, chain) && StaleOK(Content(h, chain)) && TreeOK(h, chain, tree)
    ensures forall p: nat :: BlockOf(Content(h, chain), p) == BlockOf(Content(h0, chain), p)
    ensures forall p | p in tree :: EntryAt(h, tree[p]) == EntryAt(h0, tree[p])
  {
    hide StaleOK, BlockOf;
    ContentSame(h0, h, chain);
  }

  /** The log after thorough GC: the new pages hold the valid entries of the old pages in
      order, every slot of a copied entry and no other has moved to the copy, the old pages
      before the tail page are freed and no other page of the heap has changed. */
  ghost predicate Compacted(h0: Heap, h: Heap, chain0: seq<nat>, chain: seq<nat>, tree0: map<nat, Addr>,
                            tree: map<nat, Addr>, moved: map<Addr, Addr>)
  {
    && chain0 != [] && chain != [] && In(h0, chain0) && IsChain(h0, chain0)
    && var k, n := |chain0| - 1, |chain| - 1;
    && In(h, chain) && In(h, chain[..n]) && chain[n] == chain0[k]
    && Content(h, chain[..n]) == Keep(Seen(h0, chain0, k, 0))
    && Moves(h0, h, chain[..n], moved) && MovedAll(h0, chain0, k, 0, moved) && Repointed(tree0, tree, moved)
    && (forall x | x in chain[..n] :: x !in h0 && Bytes(h[x].ents) <= LOG_BLOCK_TAIL)
    && (forall x | x in h0 :: if x in chain0[..k] then x !in h else x in h && h[x] == h0[x])
    && (forall x | x in h :: x in h0 || x in chain[..n])
  }

  lemma LogGrown(h0: Heap, h: Heap, more: seq<nat>, head: nat, tailPage: nat, chain: seq<nat>, rest: seq<nat>)
    requires NewHeap(h0, h, more) && IsLog(h0, head, tailPage, chain, rest)
    ensures IsLog(h, head, tailPage, chain, rest) && forall x | x in h0 :: x in h && h[x] == h0[x]
  {
    ChainFrame(h0, h, chain + rest);
    ChainFrame(h0, h, chain);
    assert (chain + rest)[|chain + rest| - 1] in chain + rest;
  }

  /** Every page before the tail page holds an entry. */
  ghost predicate NoEmptyPage(h: Heap, chain: seq<nat>) {
    forall i | 0 <= i < |chain| - 1 :: chain[i] in h && h[chain[i]].ents != []
  }

  /** Each slot refers to an entry of the log for its page. */
  ghost predicate SlotsHold(h0: Heap, tree0: map<nat, Addr>) {
    forall p | p in tree0 :: var a := tree0[p];
      a.page in h0 && a.idx < |h0[a.page].ents| && Holds(h0[a.page].ents[a.idx].e, p)
  }

  lemma RepointNone(tree: map<nat, Addr>, a: Addr, b: Addr)
    requires forall p | p in tree :: tree[p] != a
    ensures Repoint(tree, a, b) == tree
  {
  }

  /** The copying loop: the old heap, tree and log, the page and entry reached, the new log
      and where entries went. */
  datatype Copy = Copy(h0: Heap, tree0: map<nat, Addr>, chain: seq<nat>, i: nat, idx: nat,
                       done: seq<nat>, left: seq<nat>, moved: map<Addr, Addr>)
  {
    ghost predicate Here(h: Heap, tree: map<nat, Addr>, np: nat, used: nat) {
      && Copying(h0, h, tree0, tree, chain, i, idx, done, left, moved)
      && done != [] && np == done[|done| - 1] && np in h && used == Bytes(h[np].ents)
    }

    lemma Facts(h: Heap, tree: map<nat, Addr>, np: nat, used: nat)
      requires Here(h, tree, np, used)
      ensures h[np].next == if left == [] then 0 else left[0]
      ensures 0 !in left
    {
      NewLogParts(h0, h, done, left);
    }

    lemma Move(h: Heap, tree: map<nat, Addr>, np: nat, used: nat)
      requires Here(h, tree, np, used) && left != []
      ensures this.(done := done + [left[0]], left := left[1..]).Here(h, tree, left[0], 0)
    {
      hide Copying;
      CopyNewPage(h0, h, tree0, tree, chain, i, idx, done, left, moved);
      BlankLeft(h, tree, np, used);
    }

    lemma Start(h: Heap, new': seq<nat>)
      requires NewHeap(h0, h, new') && EndedChain(h, new') && Blank(h, new') && new' != []
      requires IsChain(h0, chain) && chain != [] && i == 0 && idx == 0 && done == [new'[0]] && left == new'[1..]
      requires moved == map[]
      ensures new'[0] in h && Here(h, tree0, new'[0], 0)
    {
      hide NewPage, Copying, NewHeap, EndedChain;
      assert done + left == new';
      assert new'[0] in new';
      CopyStart(h0, h, tree0, chain, new'[0], left);
    }

    lemma Done(h: Heap, h': Heap, tree: map<nat, Addr>, np: nat, tailPage: nat)
      requires np in h && Here(h, tree, np, Bytes(h[np].ents)) && i == |chain| - 1 && idx == 0 && tailPage == chain[i]
      requires forall x :: x in h' <==> x in done || (x in h0 && x !in chain[..|chain| - 1])
      requires forall x | x in h' && x in h0 :: h'[x] == h0[x]
      requires forall x | x in h' && x !in h0 :: x in h && h'[x].ents == h[x].ents
      ensures Compacted(h0, h', chain, done + [tailPage], tree0, tree, moved)
    {
      hide Keep, Seen, MovedAll, Repointed, Content, Moves, NewPage;
      HeadOnce(h0, chain, 0);
      TailLast(h0, chain);
      LeftNew(h, tree, np);
      assert (done + [tailPage])[..|done|] == done;
      ContentSame(h, h', done);
      MovesFrame(h0, h, h', done, done, moved);
      forall x | x in done ensures Bytes(h'[x].ents) <= LOG_BLOCK_TAIL { SmallPage(h, tree, np, x); }
    }

    lemma SmallPage(h: Heap, tree: map<nat, Addr>, np: nat, x: nat)
      requires np in h && Here(h, tree, np, Bytes(h[np].ents)) && x in done && x in h
      ensures Bytes(h[x].ents) <= LOG_BLOCK_TAIL
    {
      assert x in done + left;
    }

    lemma Old(h: Heap, tree: map<nat, Addr>, np: nat, used: nat)
      requires Here(h, tree, np, used)
      ensures i < |chain| && chain[i] in h0 && chain[i] in h && h[chain[i]] == h0[chain[i]]
    {
      assert chain[i] in chain;
    }

    lemma NotTail(h: Heap, tree: map<nat, Addr>, np: nat, used: nat)
      requires Here(h, tree, np, used) && NoEmptyPage(h0, chain)
      ensures i < |chain| && chain[i] in h0 && (chain[i] == chain[|chain| - 1] <==> i == |chain| - 1)
      ensures i < |chain| - 1 ==> h0[chain[i]].ents != []
    {
      HeadOnce(h0, chain, i);
    }

    /** The unused pages of the new log are linked, and no part of the log. */
    lemma LeftFree(h: Heap, tree: map<nat, Addr>, np: nat, used: nat, head: nat, tailPage: nat, rest: seq<nat>)
      requires Here(h, tree, np, used) && IsLog(h0, head, tailPage, chain, rest)
      ensures EndedChain(h, left) && h[np].next == if left == [] then 0 else left[0]
      ensures IsChain(h, chain + rest) && forall x | x in left :: x !in chain + rest
      ensures 0 !in left && head == chain[0] && tailPage == chain[|chain| - 1]
    {
      NewLogParts(h0, h, done, left);
      if left != [] { assert (done + left)[|done + left| - 1] == left[|left| - 1]; }
      ChainFrame(h0, h, chain + rest);
      forall x | x in left ensures x !in chain + rest { assert x in done + left; }
    }

    /** With the unused pages gone, the new log and the old log are two chains apart. */
    lemma ReadyToLink(h: Heap, tree: map<nat, Addr>, np: nat, head: nat, tailPage: nat, rest: seq<nat>)
      requires np in h && Here(h, tree, np, Bytes(h[np].ents)) && IsLog(h0, head, tailPage, chain, rest) && |chain| > 1
      ensures var h1 := h - SetOf(left);
              var from, last := chain[..|chain| - 1], [tailPage] + rest;
              IsChain(h1, done) && IsChain(h1, from + last) && forall x | x in done :: x !in from + last
    {
      hide Content, Keep, Seen, Moves, MovedAll, Repointed, NewPage, CountersOK, Bytes;
      var h1 := h - SetOf(left);
      var k := |chain| - 1;
      NewLogParts(h0, h, done, left);
      ChainFrame(h, h1, done) by { LeftNew(h, tree, np); }
      assert chain + rest == chain[..k] + ([tailPage] + rest);
      OldKept(h, tree, np, chain + rest);
      ChainFrame(h0, h1, chain + rest);
    }

    lemma OldKept(h: Heap, tree: map<nat, Addr>, np: nat, log: seq<nat>)
      requires np in h && Here(h, tree, np, Bytes(h[np].ents)) && In(h0, log)
      ensures forall x | x in log :: x in h - SetOf(left) && h[x] == h0[x]
      ensures forall x | x in done :: x !in log
    {
      LeftNew(h, tree, np);
    }

    lemma LeftNew(h: Heap, tree: map<nat, Addr>, np: nat)
      requires np in h && Here(h, tree, np, Bytes(h[np].ents))
      ensures forall x | x in done + left :: x !in h0
      ensures forall x | x in left :: x !in h0 && x !in done
      ensures forall x | x in done :: x !in h0
    {
      NewLogParts(h0, h, done, left);
      ChainParts(h, done, left);
      assert forall x | x in left :: x in done + left;
      assert forall x | x in done :: x in done + left;
    }

    /** What is left after the switch. */
    lemma Switched(h: Heap, h': Heap, tree: map<nat, Addr>, np: nat, op: nat, head: nat, tailPage: nat, rest: seq<nat>)
      requires np in h && Here(h, tree, np, Bytes(h[np].ents)) && IsLog(h0, head, tailPage, chain, rest) && |chain| > 1
      requires op == chain[|chain| - 2] && op in h - SetOf(left) && np in h - SetOf(left)
      requires h' == Linked(Linked(h - SetOf(left), np, tailPage), op, 0) - SetOf(chain[..|chain| - 1])
      requires IsChain(h', done + ([tailPage] + rest))
      ensures IsLog(h', done[0], tailPage, done + [tailPage], rest)
      ensures forall x :: x in h' <==> x in done || (x in h0 && x !in chain[..|chain| - 1])
      ensures forall x | x in h' && x in h0 :: h'[x] == h0[x]
      ensures forall x | x in h' && x !in h0 :: x in h && h'[x] == h[x].(next := h'[x].next)
    {
      hide IsLog, IsChain, NewHeap, Bytes, Content, Keep;
      LeftNew(h, tree, np);
      var k := |chain| - 1;
      assert op in chain[..k] by { assert chain[..k][k - 1] == op; }
      HeadOnce(h0, chain, 0);
      SwitchedPages(h0, h, h', chain, done, left, np, op, tailPage);
      SwitchedLog(h0, h, h', done, left, head, tailPage, chain, rest);
    }

    /** Slots that refer to the entry reached are slots of its pages. */
    lemma SlotsOf(h: Heap, tree: map<nat, Addr>, np: nat, used: nat)
      requires Here(h, tree, np, used) && SlotsHold(h0, tree0) && i < |chain| && chain[i] in h0
      requires idx < |h0[chain[i]].ents|
      ensures forall p | p in tree && tree[p] == Addr(chain[i], idx) :: Holds(h0[chain[i]].ents[idx].e, p)
    {
      MovedElsewhere(h0, h, done, left, moved);
    }

    lemma BlankLeft(h: Heap, tree: map<nat, Addr>, np: nat, used: nat)
      requires Here(h, tree, np, used) && left != []
      ensures left[0] in h && h[left[0]].ents == []
    {
      assert left[0] in left;
    }
  }

  lemma SwitchedPages(h0: Heap, h: Heap, h': Heap, chain: seq<nat>, done: seq<nat>, left: seq<nat>, np: nat, op: nat,
                      tailPage: nat)
    requires NewHeap(h0, h, done + left) && chain != [] && np in done && op in chain[..|chain| - 1]
    requires forall x | x in done + left :: x !in h0
    requires forall x | x in left :: x !in h0 && x !in done
    requires forall x | x in done :: x !in h0
    requires op in h - SetOf(left) && np in h - SetOf(left)
    requires forall x | x in chain :: x in h0
    requires h' == Linked(Linked(h - SetOf(left), np, tailPage), op, 0) - SetOf(chain[..|chain| - 1])
    ensures forall x :: x in h' <==> x in done || (x in h0 && x !in chain[..|chain| - 1])
    ensures forall x | x in h' && x in h0 :: h'[x] == h0[x]
    ensures forall x | x in h' && x !in h0 :: x in h && h'[x] == h[x].(next := h'[x].next)
  {
    hide NewPage;
    assert forall x | x in done :: x in done + left;
    assert forall x | x in done + left :: x in done || x in left;
  }

  lemma SwitchedCounters(h0: Heap, h: Heap, h': Heap, done: seq<nat>, left: seq<nat>, tailPage: nat)
    requires NewHeap(h0, h, done + left) && tailPage in h0 && tailPage in h' && In(h', done)
    requires forall x | x in done :: x !in h0
    requires forall x | x in h' && x in h0 :: h'[x] == h0[x]
    requires forall x | x in h' && x !in h0 :: x in h && h'[x] == h[x].(next := h'[x].next)
    requires h0[tailPage].num == |h0[tailPage].ents| && h0[tailPage].inv == Drops(h0[tailPage].ents)
    ensures CountersOK(h', done + [tailPage])
  {
    hide Drops;
    forall x | x in done + [tailPage] ensures h'[x].num == |h'[x].ents| && h'[x].inv == Drops(h'[x].ents) {
      if x != tailPage {
        assert x in done + left;
        NoDrops(h'[x].ents);
      }
    }
  }

  lemma SwitchedLog(h0: Heap, h: Heap, h': Heap, done: seq<nat>, left: seq<nat>, head: nat, tailPage: nat,
                    chain: seq<nat>, rest: seq<nat>)
    requires done != [] && NewHeap(h0, h, done + left) && IsLog(h0, head, tailPage, chain, rest)
    requires forall x | x in done :: x !in h0
    requires forall x :: x in h' <==> x in done || (x in h0 && x !in chain[..|chain| - 1])
    requires forall x | x in h' && x in h0 :: h'[x] == h0[x]
    requires forall x | x in h' && x !in h0 :: x in h && h'[x] == h[x].(next := h'[x].next)
    requires IsChain(h', done + ([tailPage] + rest))
    ensures IsLog(h', done[0], tailPage, done + [tailPage], rest)
  {
    hide NewHeap, CountersOK, Drops;
    var k := |chain| - 1;
    assert done + ([tailPage] + rest) == done + [tailPage] + rest;
    ChainParts(h', done + [tailPage], rest);
    var last := (chain + rest)[|chain + rest| - 1];
    TailLast(h0, chain);
    assert tailPage in chain;
    assert last in h0 && last in h' by { LastBehind(h0, h', done, tailPage, chain, rest); }
    assert (done + [tailPage] + rest)[|done + [tailPage] + rest| - 1] == last;
    TailCounters(h0, chain);
    SwitchedCounters(h0, h, h', done, left, tailPage);
  }

  lemma LastBehind(h0: Heap, h': Heap, done: seq<nat>, tailPage: nat, chain: seq<nat>, rest: seq<nat>)
    requires IsChain(h', done + ([tailPage] + rest)) && chain != [] && tailPage == chain[|chain| - 1]
    requires IsChain(h0, chain + rest)
    ensures (chain + rest)[|chain + rest| - 1] in h0 && (chain + rest)[|chain + rest| - 1] in h'
  {
    var last := (chain + rest)[|chain + rest| - 1];
    assert last in chain + rest;
    assert last == if rest == [] then tailPage else rest[|rest| - 1];
    assert last in done + ([tailPage] + rest);
  }

  lemma TailCounters(h: Heap, chain: seq<nat>)
    requires In(h, chain) && CountersOK(h, chain) && chain != []
    ensures var t := chain[|chain| - 1]; t in h && h[t].num == |h[t].ents| && h[t].inv == Drops(h[t].ents)
  {
    assert chain[|chain| - 1] in chain;
  }

  function SetOf(c: seq<nat>): set<nat> { set x | x in c }

  /** The blocks from `first` on. */
  function Consecutive(first: nat, num: nat): (r: seq<nat>)
    ensures |r| == num && forall i | 0 <= i < num :: r[i] == first + i
  {
    seq(num, i requires 0 <= i < num => first + i)
  }

  lemma NotYetFreed(h: Heap, c: seq<nat>, j: nat, f: nat)
    requires EndedChain(h, c) && f <= j < |c|
    ensures c[j] in h - SetOf(c[..f]) && c[j] != 0
    ensures h[c[j]].next == if j + 1 == |c| then 0 else c[j + 1]
  {
    assert c[j] in c && c[j] !in c[..f];
  }

  lemma RunFreed(h: Heap, c: seq<nat>, f: nat, j: nat)
    requires f <= j <= |c|
    ensures h - SetOf(c[..f]) - SetOf(c[f..j]) == h - SetOf(c[..j])
  {
    assert c[..j] == c[..f] + c[f..j];
  }

  lemma FirstPage(h0: Heap, x: nat)
    requires x !in h0 && x != 0
    ensures NewHeap(h0, h0[x := EmptyPage], [x]) && EndedChain(h0[x := EmptyPage], [x])
    ensures Blank(h0[x := EmptyPage], [x])
  {
  }
}
