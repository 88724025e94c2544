/** One free list of NOVA (nova/balloc.c): range nodes in a tree, pointers to the first and the
    last, and two counters. */
module NovaFreeList {
  import opened RangeLists

  const PAGES_PER_2MB: nat := 512
  const DEAD_ZONE: nat := 256

  class FreeList {
    var nodes: seq<Range>
    var first: nat
    var last: nat
    var numNodes: nat
    var numFree: int
    const start: nat
    const end: nat

    /** An empty list for blocks `start` to `end`. */
    constructor (start: nat, end: nat)
      ensures Valid() && nodes == [] && this.start == start && this.end == end
    {
      this.start, this.end := start, end;
      nodes, first, last, numNodes, numFree := [], 0, 0, 0, 0;
    }

    ghost predicate Valid()
      reads this
    {
      && Norm(nodes) && Distinct(nodes) && Within(nodes, start, end)
      && first == FirstId(nodes) && last == LastId(nodes)
      && numNodes == |nodes| && numFree == Total(nodes)
    }

    ghost predicate Free(b: nat)
      reads this
    {
      Has(nodes, b)
    }

    /** nova_find_free_slot; `r` is where the search for `low` in the tree ended. The place `i`
        is behind the left neighbour. Only the neighbour the search ended at is compared with
        the range. */
    method FindFreeSlot(low: nat, high: nat, r: nat) returns (ok: bool, i: nat)
      requires Valid() && low <= high && Visited(nodes, low, r)
      ensures ok ==> SlotAt(nodes, low, i)
      ensures ok <==> !Free(low) && (nodes != [] && low < nodes[r].low ==> high < nodes[r].low)
    {
      i := 0;
      if nodes == [] { return true, 0; }
      if nodes[r].low <= low <= nodes[r].high {
        return false, 0;
      }
      NotFreeHere(nodes, low, r);
      if nodes[r].high < low {
        ok, i := true, r + 1;
      } else if nodes[r].low > high {
        ok, i := true, r;
      } else {
        ok := false;
      }
    }

    /** nova_free_blocks, for `num` blocks of `per` pages each. The end of the range is tested as
        if the blocks were pages, and only one neighbour is looked at: a range that is accepted
        keeps the list in order exactly if it lies within the list's pages and none of it is free. */
    method FreeBlocks(low: nat, num: nat, per: nat, r: nat) returns (ok: bool)
      requires Valid() && num > 0 && per > 0 && Visited(nodes, low, r)
      modifies this`nodes, this`first, this`last, this`numNodes, this`numFree
      ensures ok <==> start <= low && low + num <= end + 1 && !old(Free(low)) &&
                      (old(nodes) != [] && low < old(nodes)[r].low ==> low + per * num <= old(nodes)[r].low)
      ensures ok ==> (Valid() <==> low + per * num <= end + 1 && forall b | low <= b < low + per * num :: !old(Free(b)))
      ensures ok && Valid() ==> Gained(old(nodes), nodes, low, per * num, start, end)
      ensures !ok ==> Valid() && nodes == old(nodes)
      ensures numFree == old(numFree) + if ok then per * num else 0
    {
      hide Norm, Has, Total, Distinct, Within, Replaced, FirstId, LastId, Gained;
      var pages := per * num;
      assert pages > 0;
      var high := low + pages - 1;
      if low < start || low + num > end + 1 { return false; }
      var i;
      ok, i := FindFreeSlot(low, high, r);
      if !ok { return; }
      ghost var clean := i < |nodes| ==> high < nodes[i].low;
      ghost var fits := clean && high <= end;
      CleanIff(nodes, low, high, i);
      if clean {
        forall b: nat | low <= b < low + pages ensures !Free(b) { assert !Has(nodes, b); }
      } else {
        ghost var b: nat :| low <= b <= high && Has(nodes, b);
        assert Free(b);
      }
      var prev, next := i > 0, i < |nodes|;
      if prev && next && low == nodes[i - 1].high + 1 && high + 1 == nodes[i].low {
        NodeWithin(nodes, i, start, end);
        FillHole(nodes, i, low, pages, start, end);
        if last == nodes[i].id { last := nodes[i - 1].id; }
        nodes := Replaced(nodes, i - 1, i + 1, [nodes[i - 1].(high := nodes[i].high)]);
        numNodes := numNodes - 1;
      } else if prev && low == nodes[i - 1].high + 1 {
        ghost var node := nodes[i - 1].(high := nodes[i - 1].high + pages);
        if fits { GrowRight(nodes, i, low, pages, start, end); } else { Spoiled(nodes, i - 1, i, node, end, clean); }
        nodes := Replaced(nodes, i - 1, i, [nodes[i - 1].(high := nodes[i - 1].high + pages)]);
      } else if next && high + 1 == nodes[i].low {
        NodeWithin(nodes, i, start, end);
        GrowLeft(nodes, i, low, pages, start, end);
        nodes := Replaced(nodes, i, i + 1, [nodes[i].(low := nodes[i].low - pages)]);
      } else {
        var id := FreshNodeId(nodes);
        if fits {
          AddNode(nodes, i, low, pages, start, end, id);
        } else {
          Spoiled(nodes, i, i, Range(id, low, high), end, clean);
        }
        nodes := Replaced(nodes, i, i, [Range(id, low, high)]);
        if !prev { first := id; }
        if !next { last := id; }
        numNodes := numNodes + 1;
      }
      numFree := numFree + pages;
      if fits { GainedParts(old(nodes), nodes, low, pages, start, end); }
    }

    /** As Valid, with `taken` blocks out of the list but still counted. */
    ghost predicate Counted(taken: nat)
      reads this
    {
      && Norm(nodes) && Distinct(nodes) && Within(nodes, start, end)
      && first == FirstId(nodes) && last == LastId(nodes)
      && numNodes == |nodes| && numFree == Total(nodes) + taken
    }

    /** nova_alloc_superpage: of the first node from the given side that holds 2 MB behind its
        left margin, the blocks behind that margin, as many as asked for or as many as fit.
        The margin is never 0. Differences are taken in 64 bits. */
    method AllocSuperpage(wanted: nat, fromTail: bool) returns (got: nat, blocknr: nat)
      requires Valid() && nodes != [] && 0 < wanted < 0x8000_0000_0000_0000 && wanted % PAGES_PER_2MB == 0
      requires end + 1 < 0x8000_0000_0000_0000
      modifies this`nodes, this`last, this`numNodes
      ensures Counted(got)
      ensures got == 0 ==> nodes == old(nodes)
      ensures got > 0 ==>
                got <= wanted && got % PAGES_PER_2MB == 0 && blocknr % PAGES_PER_2MB == 0
                && Lost(old(nodes), nodes, blocknr, got, start, end)
      ensures got > 0 <==> exists i :: 0 <= i < |old(nodes)| && Roomy(old(nodes)[i])
      ensures got > 0 ==>
                exists i: nat :: FirstRoomy(old(nodes), i, fromTail) && Served(old(nodes)[i], wanted, got, blocknr)
    {
      hide Norm, Has, Total, Distinct, Replaced, FirstId, LastId, Lost;
      var num, i := wanted, if fromTail then |nodes| - 1 else 0;
      got, blocknr := 0, 0;
      while 0 <= i < |nodes|
        invariant -1 <= i <= |nodes| && nodes == old(nodes) && num == wanted
        invariant Counted(0)
        invariant forall j | 0 <= j < |nodes| && (if fromTail then j > i else j < i) :: !Roomy(nodes[j])
        decreases if fromTail then i + 1 else |nodes| - i
      {
        var curr := nodes[i];
        NodeSize(nodes, i);
        var blocks, left := curr.high - curr.low + 1, PAGES_PER_2MB - curr.low % PAGES_PER_2MB;
        var avail := Minus64(blocks, left);
        RoomIs(curr, wanted, blocks, left, avail);
        if num > avail && avail - avail % PAGES_PER_2MB > 0 { num := avail - avail % PAGES_PER_2MB; }
        if blocks > left && num <= avail {
          blocknr := curr.low + left;
          Aligned(curr.low);
          LastIs(nodes, i);
          assert FirstRoomy(nodes, i, fromTail) && Served(curr, wanted, num, blocknr);
          if blocks - left - num > 0 {
            var id := FreshNodeId(nodes);
            TakeMiddle(nodes, i, left, num, start, end, id);
            nodes := Replaced(nodes, i, i + 1,
                [curr.(high := curr.low + left - 1), Range(id, curr.low + left + num, curr.high)]);
            if last == curr.id { last := id; }
            numNodes := numNodes + 1;
          } else {
            TakeBack(nodes, i, num, start, end);
            nodes := Replaced(nodes, i, i + 1, [curr.(high := curr.low + left - 1)]);
          }
          LostTotal(old(nodes), nodes, blocknr, num, start, end);
          return num, blocknr;
        }
        i := if fromTail then i - 1 else i + 1;
      }
    }

    /** nova_alloc_blocks_in_free_list: from the head or the tail, the whole node when it is no
        larger than the request; `got` is 0 when nothing is allocated. */
    method AllocBlocks(btype: nat, log: bool, wanted: nat, fromTail: bool) returns (got: nat, blocknr: nat)
      requires Valid() && 0 < wanted < 0x8000_0000_0000_0000 && end + 1 < 0x8000_0000_0000_0000
      modifies this`nodes, this`first, this`last, this`numNodes, this`numFree
      ensures Valid() && got <= wanted
      ensures got == 0 ==> nodes == old(nodes)
      ensures got > 0 ==> Lost(old(nodes), nodes, blocknr, got, start, end)
      ensures got == 0 && !log && btype == 0 ==> nodes == []
      ensures log ==> |nodes| <= |old(nodes)|
    {
      hide Norm, Has, Total, Distinct, Replaced, FirstId, LastId, Lost;
      got, blocknr := 0, 0;
      EmptyFirst(nodes);
      if first == 0 || numFree == 0 { TotalZero(nodes); return; }
      if log && NotEnough(wanted) { return; }
      if wanted % PAGES_PER_2MB == 0 && !log {
        got, blocknr := AllocSuperpage(wanted, fromTail);
        if got > 0 {
          numFree := numFree - got;
          return;
        }
      }
      got, blocknr := AllocUnaligned(btype, wanted, fromTail);
      numFree := numFree - got;
    }

    /** not_enough_blocks. */
    predicate NotEnough(wanted: nat)
      reads this
    {
      numFree < wanted || nodes == [] || nodes[|nodes| - 1].high - nodes[0].low < DEAD_ZONE
    }

    method AllocUnaligned(btype: nat, wanted: nat, fromTail: bool) returns (got: nat, blocknr: nat)
      requires Valid() && nodes != [] && wanted > 0
      modifies this`nodes, this`first, this`last, this`numNodes
      ensures Counted(got) && got <= wanted
      ensures got == 0 ==> nodes == old(nodes)
      ensures got > 0 ==> Lost(old(nodes), nodes, blocknr, got, start, end)
      ensures got == 0 ==> btype > 0
      ensures |nodes| <= |old(nodes)|
    {
      hide Norm, Has, Total, Distinct, Replaced, FirstId, LastId, Lost;
      var i := if fromTail then |nodes| - 1 else 0;
      got, blocknr := 0, 0;
      while 0 <= i < |nodes|
        invariant -1 <= i <= |nodes| && nodes == old(nodes) && Counted(0) && (!(0 <= i < |nodes|) ==> btype > 0)
        decreases if fromTail then i + 1 else |nodes| - i
      {
        var curr := nodes[i];
        NodeSize(nodes, i);
        LastIs(nodes, i);
        var blocks := curr.high - curr.low + 1;
        if wanted >= blocks && btype > 0 && wanted > blocks {
          i := if fromTail then i - 1 else i + 1;
          continue;
        }
        if wanted >= blocks {
          TakeWhole(nodes, i, start, end);
          if curr.id == first { first := if i + 1 < |nodes| then nodes[i + 1].id else 0; }
          if curr.id == last { last := if i > 0 then nodes[i - 1].id else 0; }
          nodes := Replaced(nodes, i, i + 1, []);
          numNodes := numNodes - 1;
          got, blocknr := blocks, curr.low;
        } else if !fromTail {
          TakeFront(nodes, i, wanted, start, end);
          nodes := Replaced(nodes, i, i + 1, [curr.(low := curr.low + wanted)]);
          got, blocknr := wanted, curr.low;
        } else {
          TakeBack(nodes, i, wanted, start, end);
          nodes := Replaced(nodes, i, i + 1, [curr.(high := curr.high - wanted)]);
          got, blocknr := wanted, curr.high + 1 - wanted;
        }
        LostTotal(old(nodes), nodes, blocknr, got, start, end);
        return;
      }
    }

  }

  /** Where the search for a block ends: at the node that holds it, or at a neighbour. */
  ghost predicate Visited(ns: seq<Range>, low: nat, r: nat) {
    ns != [] ==>
      && r < |ns|
      && (low < ns[r].low && r > 0 ==> ns[r - 1].high < low)
      && (ns[r].high < low && r + 1 < |ns| ==> low < ns[r + 1].low)
  }

  lemma NotFreeHere(ns: seq<Range>, low: nat, r: nat)
    requires Norm(ns) && ns != [] && Visited(ns, low, r) && !(ns[r].low <= low <= ns[r].high)
    ensures !Has(ns, low)
  {
    forall j | 0 <= j < |ns| ensures !(ns[j].low <= low <= ns[j].high) {
      if j < r { assert ns[j].high + 1 < ns[r].low; if j < r - 1 { assert ns[j].high + 1 < ns[r - 1].low; } }
      if j > r { assert ns[r].high + 1 < ns[j].low; if j > r + 1 { assert ns[r + 1].high + 1 < ns[j].low; } }
    }
  }

  lemma CleanIff(ns: seq<Range>, low: nat, high: nat, i: nat)
    requires Norm(ns) && low <= high && SlotAt(ns, low, i)
    ensures (i < |ns| ==> high < ns[i].low) <==> forall b: nat | low <= b <= high :: !Has(ns, b)
  {
    if i < |ns| && ns[i].low <= high {
      assert ns[i].low <= ns[i].low <= ns[i].high;
      assert Has(ns, ns[i].low);
    } else {
      forall b: nat | low <= b <= high ensures !Has(ns, b) { BetweenFree(ns, b, i); }
    }
  }

  lemma BetweenFree(ns: seq<Range>, b: nat, i: nat)
    requires Norm(ns) && SlotAt(ns, b, i)
    ensures !Has(ns, b)
  {
    forall j | 0 <= j < |ns| ensures !(ns[j].low <= b <= ns[j].high) {
      if j < i - 1 { assert ns[j].high + 1 < ns[i - 1].low; }
      if j > i { assert ns[i].high + 1 < ns[j].low; }
    }
  }

  /** A node that reaches into the next one. */
  lemma Spoiled(ns: seq<Range>, i: nat, k: nat, n: Range, end: nat, clean: bool)
    requires i <= k <= |ns| && if clean then n.high > end else k < |ns| && n.high >= ns[k].low
    ensures if clean then forall start: nat :: !Within(Replaced(ns, i, k, [n]), start, end)
            else !Norm(Replaced(ns, i, k, [n]))
  {
    var r := Replaced(ns, i, k, [n]);
    assert r[i] == n;
    if !clean { assert r[i + 1] == ns[k]; }
  }

  lemma NodeWithin(ns: seq<Range>, i: nat, start: nat, end: nat)
    requires Within(ns, start, end) && Norm(ns) && i < |ns|
    ensures ns[i].low <= ns[i].high <= end
  {
  }

  lemma GainedParts(ns: seq<Range>, ns': seq<Range>, low: nat, num: nat, start: nat, end: nat)
    requires Gained(ns, ns', low, num, start, end)
    ensures Norm(ns') && Distinct(ns') && Within(ns', start, end) && Total(ns') == Total(ns) + num
  {
  }

  /** What a node holds behind its left margin, which runs up to the next 2 MB boundary. */
  function Margin(n: Range): (m: nat)
    ensures 0 < m <= PAGES_PER_2MB
  {
    PAGES_PER_2MB - n.low % PAGES_PER_2MB
  }

  predicate Roomy(n: Range) { n.high - n.low + 1 >= Margin(n) + PAGES_PER_2MB }

  ghost predicate FirstRoomy(ns: seq<Range>, i: nat, fromTail: bool) {
    i < |ns| && Roomy(ns[i]) && forall j | 0 <= j < |ns| && (if fromTail then j > i else j < i) :: !Roomy(ns[j])
  }

  ghost predicate Served(n: Range, wanted: nat, got: nat, blocknr: nat) {
    var room := n.high - n.low + 1 - Margin(n);
    blocknr == n.low + Margin(n) && got == if wanted <= room then wanted else room - room % PAGES_PER_2MB
  }

  lemma RoomIs(n: Range, wanted: nat, blocks: nat, left: nat, avail: nat)
    requires n.low <= n.high && blocks == n.high - n.low + 1 < 0x8000_0000_0000_0000 && left == Margin(n)
    requires avail == Minus64(blocks, left)
    requires 0 < wanted < 0x8000_0000_0000_0000 && wanted % PAGES_PER_2MB == 0
    ensures var num := if wanted > avail && avail - avail % PAGES_PER_2MB > 0 then avail - avail % PAGES_PER_2MB
              else wanted;
            && (blocks > left && num <= avail <==> Roomy(n)) && num % PAGES_PER_2MB == 0 && 0 < num <= wanted
            && (Roomy(n) ==> Served(n, wanted, num, n.low + left))
            && (!Roomy(n) ==> num == wanted)
  {
  }

  /** Subtraction of unsigned 64-bit numbers. */
  function Minus64(a: nat, b: nat): (d: nat)
    requires a < 0x8000_0000_0000_0000 && b <= PAGES_PER_2MB
    ensures if a >= b then d == a - b else d > 0x8000_0000_0000_0000
  {
    if a >= b then a - b else 0x1_0000_0000_0000_0000 + a - b
  }

  lemma Aligned(low: nat)
    ensures (low + (PAGES_PER_2MB - low % PAGES_PER_2MB)) % PAGES_PER_2MB == 0
  {
  }

  lemma NodeSize(ns: seq<Range>, i: nat)
    requires Norm(ns) && i < |ns|
    ensures ns[i].low <= ns[i].high
  {
  }

  lemma LostTotal(ns: seq<Range>, ns': seq<Range>, low: nat, num: nat, start: nat, end: nat)
    requires Lost(ns, ns', low, num, start, end)
    ensures Norm(ns') && Distinct(ns') && Within(ns', start, end) && Total(ns') == Total(ns) - num
  {
  }

  lemma EmptyFirst(ns: seq<Range>)
    requires Distinct(ns)
    ensures FirstId(ns) == 0 <==> ns == []
  {
  }

  lemma TotalZero(ns: seq<Range>)
    requires Norm(ns)
    ensures Total(ns) == 0 ==> ns == []
  {
    TotalPositive(ns);
  }

  /** Allocating blocks and freeing them again gives the same list. */
  lemma AllocThenFree(ns: seq<Range>, ns1: seq<Range>, ns2: seq<Range>, low: nat, num: nat, start: nat, end: nat)
    requires Norm(ns) && Lost(ns, ns1, low, num, start, end) && Gained(ns1, ns2, low, num, start, end)
    ensures SameRanges(ns, ns2) && Total(ns2) == Total(ns)
  {
    hide Norm, Has, SameRanges;
    forall x: nat ensures Has(ns, x) <==> Has(ns2, x) {}
    Canonical(ns, ns2);
  }

  /** Blocks 0, 1 and 5 to 9 are free, and the search for block 3 ends at the lower node. Freeing
      blocks 3 to 6 is accepted, though 5 and 6 are free, and spoils the list. */
  method FreedTwice() returns (ok: bool, l: FreeList)
    ensures ok && !l.Valid()
  {
    l := new FreeList(0, 99);
    l.nodes, l.first, l.last, l.numNodes, l.numFree := [Range(1, 0, 1), Range(2, 5, 9)], 1, 2, 2, 7;
    ListIs(l.nodes);
    assert l.Free(5) && !l.Free(3);
    ok := l.FreeBlocks(3, 4, 1, 0);
  }

  lemma ListIs(ns: seq<Range>)
    requires ns == [Range(1, 0, 1), Range(2, 5, 9)]
    ensures Norm(ns) && Distinct(ns) && Within(ns, 0, 99) && FirstId(ns) == 1 && LastId(ns) == 2 && Total(ns) == 7
    ensures Visited(ns, 3, 0) && !Has(ns, 3) && Has(ns, 5)
  {
    assert ns[1].low <= 5 <= ns[1].high;
    assert ns[..1] == [Range(1, 0, 1)] && ns[..1][..0] == [];
    assert Total(ns[..1]) == 2;
  }
}
