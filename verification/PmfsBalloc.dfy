/** The block allocator of PMFS (pmfs/balloc.c): a sorted list of the ranges in use. A block of
    1, 512 or 262144 pages is allocated in the first gap that has an aligned place for it. */
module PmfsBalloc {
  import opened Division
  import opened RangeLists

  /** The first multiple of `num` after block `high`. */
  function AlignedAfter(high: nat, num: nat): (a: nat)
    requires num > 0
    ensures a > high
  {
    MultipleAfter(high, num);
    (high + num) / num * num
  }

  lemma MultipleAfter(high: nat, num: nat)
    requires num > 0
    ensures (high + num) / num * num > high && ((high + num) / num * num) % num == 0
  {
    var q, r := (high + num) / num, (high + num) % num;
    assert high + num == q * num + r;
    Split(q, 0, num);
    assert q * num + 0 == q * num;
  }

  /** No multiple lies between. */
  lemma AlignedLeast(high: nat, num: nat, a: nat)
    requires num > 0 && a % num == 0 && a > high
    ensures AlignedAfter(high, num) % num == 0 && AlignedAfter(high, num) <= a
  {
    MultipleAfter(high, num);
    var q, p := (high + num) / num, a / num;
    assert a == p * num;
    assert high + num == q * num + (high + num) % num;
    if p < q { Grows(q, p + 1, num); }
    Grows(p, q, num) by { assert p >= q; }
  }

  ghost predicate HasId(ns: seq<Range>, id: nat) { exists j :: 0 <= j < |ns| && ns[j].id == id }

  class BlockMap {
    var nodes: seq<Range>       // block_inuse_head
    var numFree: int
    var numNodes: int
    const start: nat
    const end: nat              // block_end, the first block behind the device

    ghost predicate Valid()
      reads this
    {
      && Norm(nodes) && Distinct(nodes) && end > 0 && Within(nodes, start, end - 1)
      && numNodes == |nodes| && numFree == end - start - Total(nodes)
    }

    ghost predicate InUse(b: nat)
      reads this
    {
      Has(nodes, b)
    }

    /** Where the gap behind node `i` ends. */
    function NextLow(i: nat): nat
      reads this
      requires i < |nodes|
    {
      if i + 1 < |nodes| then nodes[i + 1].low else end
    }

    /** An aligned run of `num` blocks in the gap behind node `i`. */
    ghost predicate FitsBehind(i: nat, a: nat, num: nat)
      reads this
      requires num > 0 && i < |nodes|
    {
      a % num == 0 && nodes[i].high < a && a + num - 1 < NextLow(i)
    }

    /** pmfs_new_block: the blocks returned were free, are aligned and are now in use; it fails
        only if no gap behind a node has an aligned place. */
    method NewBlock(num: nat) returns (found: bool, low: nat)
      requires Valid() && num > 0
      modifies this`nodes, this`numFree, this`numNodes
      ensures Valid()
      ensures found ==>
                low % num == 0 && Gained(old(nodes), nodes, low, num, start, end - 1)
                && forall b: nat | low <= b < low + num :: !old(InUse(b))
      ensures !found ==> nodes == old(nodes) && forall i: nat, a: nat | i < |nodes| :: !FitsBehind(i, a, num)
    {
      hide Norm, Has, Total, Distinct, Within, Replaced, Gained;
      var i := 0;
      low := 0;
      while i < |nodes|
        invariant 0 <= i <= |nodes| && Valid() && nodes == old(nodes)
        invariant forall j: nat, a: nat | j < i :: !FitsBehind(j, a, num)
      {
        var next := NextLow(i);
        low := AlignedAfter(nodes[i].high, num);
        MultipleAfter(nodes[i].high, num);
        var high := low + num - 1;
        if high >= next {
          forall a: nat ensures !FitsBehind(i, a, num) {
            if a % num == 0 && nodes[i].high < a { AlignedLeast(nodes[i].high, num, a); }
          }
          i := i + 1;
          continue;
        }
        GapFree(nodes, i, low, high, start, end);
        Put(i, low, high, num);
        found := true;
        return;
      }
      found := false;
    }

    /** The four ways a run can lie in a gap. */
    method Put(i: nat, low: nat, high: nat, num: nat)
      requires Valid() && i < |nodes| && num > 0 && nodes[i].high < low && high == low + num - 1 && high < NextLow(i)
      requires start <= low && high < end
      modifies this`nodes, this`numFree, this`numNodes
      ensures Valid() && Gained(old(nodes), nodes, low, num, start, end - 1)
    {
      hide Norm, Has, Total, Distinct, Within, Replaced;
      var next, last := NextLow(i), i + 1 == |nodes|;
      NodesWithin(nodes, i, start, end);
      if low == nodes[i].high + 1 && high == next - 1 && !last {
        FillHole(nodes, i + 1, low, num, start, end - 1);
        nodes := Replaced(nodes, i, i + 2, [nodes[i].(high := nodes[i + 1].high)]);
        numNodes := numNodes - 1;
      } else if low == nodes[i].high + 1 {
        GrowRight(nodes, i + 1, low, num, start, end - 1);
        nodes := Replaced(nodes, i, i + 1, [nodes[i].(high := nodes[i].high + num)]);
      } else if high == next - 1 && !last {
        GrowLeft(nodes, i + 1, low, num, start, end - 1);
        nodes := Replaced(nodes, i + 1, i + 2, [nodes[i + 1].(low := nodes[i + 1].low - num)]);
      } else {
        var id := FreshNodeId(nodes);
        AddNode(nodes, i + 1, low, num, start, end - 1, id);
        nodes := Replaced(nodes, i + 1, i + 1, [Range(id, low, high)]);
        numNodes := numNodes + 1;
      }
      numFree := numFree - num;
    }

    /** A hint is no node, or a node of the list. */
    ghost predicate HintOK(hint: nat)
      reads this
    {
      hint == 0 || HasId(nodes, hint)
    }

    /** __pmfs_free_block; the search starts at the hint when the blocks do not lie before it. It
        succeeds exactly if the blocks lie in one node, and changes nothing otherwise. The hint
        stays a node of the list. */
    method FreeBlock(low: nat, num: nat, hint: nat) returns (ok: bool, hint': nat)
      requires Valid() && nodes != [] && num > 0 && HintOK(hint)
      modifies this`nodes, this`numFree, this`numNodes
      ensures Valid() && HintOK(hint')
      ensures ok <==>
                exists j :: 0 <= j < |old(nodes)| && old(nodes)[j].low <= low && low + num - 1 <= old(nodes)[j].high
      ensures if ok then Lost(old(nodes), nodes, low, num, start, end - 1) else nodes == old(nodes) && hint' == hint
    {
      hide Norm, Has, Total, Distinct, Within, Lost;
      var high := low + num - 1;
      ok, hint' := false, hint;
      var i := StartAt(low, hint);
      NotBefore(nodes, low, high, i);
      while i < |nodes|
        invariant 0 <= i <= |nodes| && nodes == old(nodes) && Valid() && !ok && hint' == hint
        invariant forall j | 0 <= j < i :: !(nodes[j].low <= low && high <= nodes[j].high)
        decreases |nodes| - i
      {
        if low <= nodes[i].high && nodes[i].low <= low && high <= nodes[i].high {
          ok := true;
          hint' := Remove(i, low, high, num);
          return;
        }
        i := i + 1;
      }
    }

    /** The node the search starts from. */
    method StartAt(low: nat, hint: nat) returns (i: nat)
      requires Valid() && nodes != [] && HintOK(hint)
      ensures i < |nodes| && (i == 0 || nodes[i].low <= low)
    {
      i := 0;
      if hint != 0 {
        while nodes[i].id != hint
          invariant 0 <= i < |nodes| && exists j :: i <= j < |nodes| && nodes[j].id == hint
          decreases |nodes| - i
        {
          i := i + 1;
        }
        if low < nodes[i].low { i := 0; }
      }
    }

    /** The four ways a run can lie in a node. */
    method Remove(i: nat, low: nat, high: nat, num: nat) returns (hint': nat)
      requires Valid() && i < |nodes| && num > 0 && high == low + num - 1 && nodes[i].low <= low
      requires high <= nodes[i].high
      modifies this`nodes, this`numFree, this`numNodes
      ensures Valid() && Lost(old(nodes), nodes, low, num, start, end - 1) && HintOK(hint')
    {
      hide Norm, Has, Total, Distinct, Within, Replaced;
      var n, next := nodes[i], if i + 1 < |nodes| then nodes[i + 1].id else 0;
      if low == n.low && high == n.high {
        TakeWhole(nodes, i, start, end - 1);
        KeptIds(nodes, i, []);
        nodes := Replaced(nodes, i, i + 1, []);
        numNodes := numNodes - 1;
        hint' := next;
      } else if low == n.low {
        TakeFront(nodes, i, num, start, end - 1);
        KeptIds(nodes, i, [n.(low := n.low + num)]);
        nodes := Replaced(nodes, i, i + 1, [n.(low := high + 1)]);
        hint' := n.id;
      } else if high == n.high {
        TakeBack(nodes, i, num, start, end - 1);
        KeptIds(nodes, i, [n.(high := n.high - num)]);
        nodes := Replaced(nodes, i, i + 1, [n.(high := low - 1)]);
        hint' := next;
      } else {
        var id := FreshNodeId(nodes);
        TakeMiddle(nodes, i, low - n.low, num, start, end - 1, id);
        var a, z := n.(high := n.low + (low - n.low) - 1), Range(id, n.low + (low - n.low) + num, n.high);
        KeptIds(nodes, i, [a, z]);
        nodes := Replaced(nodes, i, i + 1, [n.(high := low - 1), Range(id, high + 1, n.high)]);
        numNodes := numNodes + 1;
        hint' := id;
      }
      numFree := numFree + num;
    }
  }

  /** The nodes behind the changed one, and the new ones, are in the list. */
  lemma KeptIds(ns: seq<Range>, i: nat, mid: seq<Range>)
    requires i < |ns|
    ensures i + 1 < |ns| ==> HasId(Replaced(ns, i, i + 1, mid), ns[i + 1].id)
    ensures mid != [] ==> HasId(Replaced(ns, i, i + 1, mid), mid[|mid| - 1].id)
  {
    var r := Replaced(ns, i, i + 1, mid);
    if i + 1 < |ns| { assert r[i + |mid|] == ns[i + 1]; }
    if mid != [] { assert r[i + |mid| - 1] == mid[|mid| - 1]; }
  }

  lemma NodesWithin(ns: seq<Range>, i: nat, start: nat, end: nat)
    requires end > 0 && Within(ns, start, end - 1) && Norm(ns) && i < |ns|
    ensures start <= ns[i].low <= ns[i].high < end
    ensures i + 1 < |ns| ==> ns[i].high + 1 < ns[i + 1].low
  {
  }

  lemma GapFree(ns: seq<Range>, i: nat, low: nat, high: nat, start: nat, end: nat)
    requires end > 0 && Norm(ns) && Within(ns, start, end - 1) && i < |ns| && ns[i].high < low <= high
    requires high < (if i + 1 < |ns| then ns[i + 1].low else end)
    ensures start <= low && high < end && forall b: nat | low <= b <= high :: !Has(ns, b)
  {
    if i + 1 < |ns| { assert ns[i + 1].low <= ns[i + 1].high; }
    forall b: nat | low <= b <= high ensures !Has(ns, b) {
      Apart(ns, i + 1, i + 1, b);
      HasConcat(ns[..i + 1], ns[i + 1..], b);
      assert ns == ns[..i + 1] + ns[i + 1..];
    }
  }

  lemma NotBefore(ns: seq<Range>, low: nat, high: nat, i: nat)
    requires Norm(ns) && i < |ns| && low <= high && (i == 0 || ns[i].low <= low)
    ensures forall j | 0 <= j < i :: !(ns[j].low <= low && high <= ns[j].high)
  {
    forall j | 0 <= j < i ensures !(ns[j].low <= low && high <= ns[j].high) { assert ns[j].high + 1 < ns[i].low; }
  }
}
