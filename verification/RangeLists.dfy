/** Ranges of block numbers as the allocators of NOVA and PMFS keep them: ascending, disjoint
    and with a block of the other kind between any two. */
module RangeLists {
  import opened FreshIds

  datatype Range = Range(id: nat, low: nat, high: nat)

  ghost predicate Norm(ns: seq<Range>) {
    && (forall i | 0 <= i < |ns| :: ns[i].low <= ns[i].high)
    && (forall i, j | 0 <= i < j < |ns| :: ns[i].high + 1 < ns[j].low)
  }

  /** Block `b` is in a range. */
  ghost predicate Has(ns: seq<Range>, b: nat) { exists i :: 0 <= i < |ns| && ns[i].low <= b <= ns[i].high }

  function Total(ns: seq<Range>): int {
    if ns == [] then 0 else Total(ns[..|ns| - 1]) + (ns[|ns| - 1].high - ns[|ns| - 1].low + 1)
  }

  lemma {:induction false} TotalConcat(a: seq<Range>, b: seq<Range>)
    ensures Total(a + b) == Total(a) + Total(b)
    decreases |b|
  {
    if b == [] {
      assert a + b == a;
    } else {
      TotalConcat(a, b[..|b| - 1]);
      assert (a + b)[..|a + b| - 1] == a + b[..|b| - 1];
    }
  }

  lemma HasConcat(a: seq<Range>, b: seq<Range>, x: nat)
    ensures Has(a + b, x) <==> Has(a, x) || Has(b, x)
  {
    var c := a + b;
    if Has(c, x) {
      var i :| 0 <= i < |c| && c[i].low <= x <= c[i].high;
      if i < |a| { assert a[i] == c[i]; } else { assert b[i - |a|] == c[i]; }
    }
    if Has(a, x) {
      var i :| 0 <= i < |a| && a[i].low <= x <= a[i].high;
      assert c[i] == a[i];
    }
    if Has(b, x) {
      var i :| 0 <= i < |b| && b[i].low <= x <= b[i].high;
      assert c[|a| + i] == b[i];
    }
  }

  /** The nodes from `i` to `k` replaced by `mid`. */
  function Replaced(ns: seq<Range>, i: nat, k: nat, mid: seq<Range>): seq<Range>
    requires i <= k <= |ns|
  {
    ns[..i] + mid + ns[k..]
  }

  /** `mid` fits between the nodes before `i` and those from `k` on. */
  ghost predicate FitsIn(ns: seq<Range>, i: nat, k: nat, mid: seq<Range>)
    requires i <= k <= |ns|
  {
    && Norm(mid)
    && (mid != [] && i > 0 ==> ns[i - 1].high + 1 < mid[0].low)
    && (mid != [] && k < |ns| ==> mid[|mid| - 1].high + 1 < ns[k].low)
  }

  lemma ReplacedNorm(ns: seq<Range>, i: nat, k: nat, mid: seq<Range>)
    requires Norm(ns) && i <= k <= |ns| && FitsIn(ns, i, k, mid)
    ensures Norm(Replaced(ns, i, k, mid))
  {
    var r := Replaced(ns, i, k, mid);
    var m := i + |mid|;
    assert forall p | 0 <= p < i :: r[p] == ns[p];
    assert forall p | i <= p < m :: r[p] == mid[p - i];
    assert forall p | m <= p < |r| :: r[p] == ns[p - m + k];
    forall p, q | 0 <= p < q < |r| ensures r[p].high + 1 < r[q].low {
      if p < i && i <= q < m {
        assert ns[p].high <= ns[i - 1].high
            && mid[0].low <= mid[q - i].low by { if p < i - 1 { assert ns[p].high + 1 < ns[i - 1].low; } }
      } else if i <= p < m && m <= q {
        assert mid[p - i].high <= mid[|mid| - 1].high
            && ns[k].low <= ns[q - m + k].low by { if k < q - m + k { assert ns[k].high + 1 < ns[q - m + k].low; } }
      }
    }
  }

  /** What a replacement changes is what it puts in the place of what it takes out. */
  lemma ReplacedHas(ns: seq<Range>, i: nat, k: nat, mid: seq<Range>, x: nat)
    requires i <= k <= |ns|
    ensures Has(Replaced(ns, i, k, mid), x) <==> Has(ns[..i], x) || Has(mid, x) || Has(ns[k..], x)
    ensures Has(ns, x) <==> Has(ns[..i], x) || Has(ns[i..k], x) || Has(ns[k..], x)
  {
    HasConcat(ns[..i] + mid, ns[k..], x);
    HasConcat(ns[..i], mid, x);
    HasConcat(ns[..i] + ns[i..k], ns[k..], x);
    HasConcat(ns[..i], ns[i..k], x);
    assert ns[..i] + ns[i..k] + ns[k..] == ns;
  }

  lemma ReplacedTotal(ns: seq<Range>, i: nat, k: nat, mid: seq<Range>)
    requires i <= k <= |ns|
    ensures Total(Replaced(ns, i, k, mid)) == Total(ns) - Total(ns[i..k]) + Total(mid)
  {
    TotalConcat(ns[..i] + mid, ns[k..]);
    TotalConcat(ns[..i], mid);
    TotalConcat(ns[..i] + ns[i..k], ns[k..]);
    TotalConcat(ns[..i], ns[i..k]);
    assert ns[..i] + ns[i..k] + ns[k..] == ns;
  }

  /** Blocks between two neighbours, beside the nodes. */
  lemma Apart(ns: seq<Range>, i: nat, k: nat, x: nat)
    requires Norm(ns) && i <= k <= |ns| && (i > 0 ==> ns[i - 1].high < x) && (k < |ns| ==> x < ns[k].low)
    ensures !Has(ns[..i], x) && !Has(ns[k..], x)
  {
    forall p | 0 <= p < i ensures ns[..i][p].high < x {
      if p < i - 1 { assert ns[p].high + 1 < ns[i - 1].low; }
    }
    forall p | 0 <= p < |ns| - k ensures x < ns[k..][p].low {
      if p > 0 { assert ns[k].high + 1 < ns[k + p].low; }
    }
  }

  ghost predicate SameRanges(a: seq<Range>, b: seq<Range>) {
    |a| == |b| && forall i | 0 <= i < |a| :: a[i].low == b[i].low && a[i].high == b[i].high
  }

  lemma FirstRange(a: seq<Range>, b: seq<Range>)
    requires Norm(a) && Norm(b) && a != [] && b != [] && forall x: nat :: Has(a, x) <==> Has(b, x)
    ensures a[0].low == b[0].low && a[0].high == b[0].high
  {
    LowestHas(a);
    LowestHas(b);
    EndHas(a);
    EndHas(b);
  }

  lemma LowestHas(a: seq<Range>)
    requires Norm(a) && a != []
    ensures Has(a, a[0].low) && forall x: nat | Has(a, x) :: a[0].low <= x
  {
    assert a[0].low <= a[0].low <= a[0].high;
    forall x: nat | Has(a, x) ensures a[0].low <= x {
      var i :| 0 <= i < |a| && a[i].low <= x <= a[i].high;
      if i > 0 { assert a[0].high + 1 < a[i].low; }
    }
  }

  lemma EndHas(a: seq<Range>)
    requires Norm(a) && a != []
    ensures !Has(a, a[0].high + 1) && forall x: nat | a[0].low <= x <= a[0].high :: Has(a, x)
  {
    forall i | 0 < i < |a| ensures a[0].high + 1 < a[i].low {}
  }

  lemma TailHas(a: seq<Range>, x: nat)
    requires Norm(a) && a != []
    ensures Has(a[1..], x) <==> Has(a, x) && x > a[0].high
  {
    assert a == [a[0]] + a[1..];
    HasConcat([a[0]], a[1..], x);
    if Has(a[1..], x) {
      var i :| 0 <= i < |a| - 1 && a[1..][i].low <= x <= a[1..][i].high;
      assert a[0].high + 1 < a[i + 1].low;
    }
    if Has(a, x) && x > a[0].high {
      var i :| 0 <= i < |a| && a[i].low <= x <= a[i].high;
      assert a[1..][i - 1] == a[i];
    }
  }

  /** The list is determined by the blocks in it. */
  lemma {:induction false} Canonical(a: seq<Range>, b: seq<Range>)
    requires Norm(a) && Norm(b) && forall x: nat :: Has(a, x) <==> Has(b, x)
    ensures SameRanges(a, b)
    decreases |a|
  {
    if a == [] {
      if b != [] { LowestHas(b); }
    } else if b == [] {
      LowestHas(a);
    } else {
      FirstRange(a, b);
      forall x: nat ensures Has(a[1..], x) <==> Has(b[1..], x) {
        TailHas(a, x);
        TailHas(b, x);
      }
      Canonical(a[1..], b[1..]);
      assert forall i | 0 < i < |a| :: a[i] == a[1..][i - 1];
      assert forall i | 0 < i < |b| :: b[i] == b[1..][i - 1];
    }
  }

  // ------------------------------------------------------ nodes, ends and bounds

  ghost predicate Distinct(ns: seq<Range>) {
    && (forall i | 0 <= i < |ns| :: ns[i].id != 0)
    && (forall i, j | 0 <= i < j < |ns| :: ns[i].id != ns[j].id)
  }

  function FirstId(ns: seq<Range>): nat { if ns == [] then 0 else ns[0].id }
  function LastId(ns: seq<Range>): nat { if ns == [] then 0 else ns[|ns| - 1].id }

  ghost predicate Within(ns: seq<Range>, start: nat, end: nat) {
    forall i | 0 <= i < |ns| :: start <= ns[i].low && ns[i].high <= end
  }

  /** The nodes before index `i` end before block `low`, the others start after it. */
  ghost predicate SlotAt(ns: seq<Range>, low: nat, i: nat) {
    i <= |ns| && (i > 0 ==> ns[i - 1].high < low) && (i < |ns| ==> low < ns[i].low)
  }

  /** The list of free blocks grown by `num` blocks from `low` on. */
  ghost predicate Gained(ns: seq<Range>, ns': seq<Range>, low: nat, num: nat, start: nat, end: nat) {
    && Norm(ns') && Distinct(ns') && Within(ns', start, end) && Total(ns') == Total(ns) + num
    && forall b: nat :: Has(ns', b) <==> Has(ns, b) || low <= b < low + num
  }

  lemma OneHas(n: Range, x: nat)
    ensures Has([n], x) <==> n.low <= x <= n.high
  {
    if n.low <= x <= n.high { assert [n][0].low <= x <= [n][0].high; }
  }

  lemma TwoHas(m: Range, n: Range, x: nat)
    ensures Has([m, n], x) <==> m.low <= x <= m.high || n.low <= x <= n.high
  {
    HasConcat([m], [n], x);
    assert [m] + [n] == [m, n];
    OneHas(m, x);
    OneHas(n, x);
  }

  lemma SmallTotals(m: Range, n: Range)
    ensures Total([m]) == m.high - m.low + 1 && Total([m, n]) == (m.high - m.low + 1) + (n.high - n.low + 1)
    ensures Total([]) == 0
  {
    assert [m][..0] == [] && [m, n][..1] == [m];
  }

  ghost predicate IdsKept(ns: seq<Range>, i: nat, k: nat, mid: seq<Range>)
    requires i <= k <= |ns|
  {
    && Distinct(mid)
    && forall p, q | 0 <= p < |ns| && !(i <= p < k) && 0 <= q < |mid| :: ns[p].id != mid[q].id
  }

  lemma ReplacedIds(ns: seq<Range>, i: nat, k: nat, mid: seq<Range>)
    requires Distinct(ns) && i <= k <= |ns| && IdsKept(ns, i, k, mid)
    ensures Distinct(Replaced(ns, i, k, mid))
  {
    var r := Replaced(ns, i, k, mid);
    var m := i + |mid|;
    assert forall p | 0 <= p < i :: r[p] == ns[p];
    assert forall p | i <= p < m :: r[p] == mid[p - i];
    assert forall p | m <= p < |r| :: r[p] == ns[p - m + k];
  }

  lemma ReplacedWithin(ns: seq<Range>, i: nat, k: nat, mid: seq<Range>, start: nat, end: nat)
    requires Within(ns, start, end) && i <= k <= |ns| && Within(mid, start, end)
    ensures Within(Replaced(ns, i, k, mid), start, end)
  {
  }

  /** The pointers to the first and the last node after a replacement. */
  lemma Ends(ns: seq<Range>, i: nat, k: nat, mid: seq<Range>)
    requires i <= k <= |ns|
    ensures FirstId(Replaced(ns, i, k, mid))
              == if i > 0 then FirstId(ns) else if mid != [] then mid[0].id else FirstId(ns[k..])
    ensures LastId(Replaced(ns, i, k, mid))
              == if k < |ns| then LastId(ns) else if mid != [] then mid[|mid| - 1].id else LastId(ns[..i])
    ensures |Replaced(ns, i, k, mid)| == |ns| - (k - i) + |mid|
  {
  }

  ghost predicate Fitting(ns: seq<Range>, i: nat, k: nat, mid: seq<Range>, start: nat, end: nat)
    requires i <= k <= |ns|
  {
    FitsIn(ns, i, k, mid) && IdsKept(ns, i, k, mid) && Within(mid, start, end)
  }

  lemma ReplacedAll(ns: seq<Range>, i: nat, k: nat, mid: seq<Range>, start: nat, end: nat)
    requires Norm(ns) && Distinct(ns) && Within(ns, start, end) && i <= k <= |ns| && Fitting(ns, i, k, mid, start, end)
    ensures var r := Replaced(ns, i, k, mid);
            Norm(r) && Distinct(r) && Within(r, start, end) && Total(r) == Total(ns) - Total(ns[i..k]) + Total(mid)
  {
    hide Norm, Distinct, Within, Total, Replaced, FitsIn, IdsKept;
    ReplacedNorm(ns, i, k, mid);
    ReplacedIds(ns, i, k, mid);
    ReplacedWithin(ns, i, k, mid, start, end);
    ReplacedTotal(ns, i, k, mid);
  }

  lemma Gains(ns: seq<Range>, i: nat, k: nat, mid: seq<Range>, low: nat, num: nat, start: nat, end: nat)
    requires Norm(ns) && Distinct(ns) && Within(ns, start, end) && i <= k <= |ns| && Fitting(ns, i, k, mid, start, end)
    requires Total(mid) == Total(ns[i..k]) + num
    requires forall b: nat :: Has(mid, b) <==> Has(ns[i..k], b) || low <= b < low + num
    ensures Gained(ns, Replaced(ns, i, k, mid), low, num, start, end)
  {
    hide Norm, Distinct, Within, Total, Replaced, Fitting, Has;
    ReplacedAll(ns, i, k, mid, start, end);
    forall b: nat ensures Has(Replaced(ns, i, k, mid), b) <==> Has(ns, b) || low <= b < low + num {
      ReplacedHas(ns, i, k, mid, b);
    }
  }

  lemma FillHole(ns: seq<Range>, i: nat, low: nat, num: nat, start: nat, end: nat)
    requires Norm(ns) && Distinct(ns) && Within(ns, start, end) && 0 < i < |ns| && num > 0
    requires low == ns[i - 1].high + 1 && low + num == ns[i].low
    ensures var r := Replaced(ns, i - 1, i + 1, [ns[i - 1].(high := ns[i].high)]);
            && Gained(ns, r, low, num, start, end) && |r| == |ns| - 1 && FirstId(r) == FirstId(ns)
            && LastId(r) == if LastId(ns) == ns[i].id then ns[i - 1].id else LastId(ns)
  {
    hide Replaced, Gained;
    var mid := [ns[i - 1].(high := ns[i].high)];
    assert ns[i - 1..i + 1] == [ns[i - 1], ns[i]];
    SmallTotals(ns[i - 1], ns[i]);
    SmallTotals(mid[0], mid[0]);
    forall b: nat ensures Has(mid, b) <==> Has(ns[i - 1..i + 1], b) || low <= b < low + num {
      TwoHas(ns[i - 1], ns[i], b);
      OneHas(mid[0], b);
    }
    Gains(ns, i - 1, i + 1, mid, low, num, start, end);
    Ends(ns, i - 1, i + 1, mid);
  }

  lemma GrowRight(ns: seq<Range>, i: nat, low: nat, num: nat, start: nat, end: nat)
    requires Norm(ns) && Distinct(ns) && Within(ns, start, end) && 0 < i <= |ns| && num > 0 && low + num <= end + 1
    requires low == ns[i - 1].high + 1 && (i < |ns| ==> low + num < ns[i].low)
    ensures var r := Replaced(ns, i - 1, i, [ns[i - 1].(high := ns[i - 1].high + num)]);
            Gained(ns, r, low, num, start, end) && |r| == |ns| && FirstId(r) == FirstId(ns) && LastId(r) == LastId(ns)
  {
    hide Replaced, Gained;
    var mid := [ns[i - 1].(high := ns[i - 1].high + num)];
    assert ns[i - 1..i] == [ns[i - 1]];
    SmallTotals(ns[i - 1], mid[0]);
    SmallTotals(mid[0], mid[0]);
    forall b: nat ensures Has(mid, b) <==> Has(ns[i - 1..i], b) || low <= b < low + num {
      OneHas(ns[i - 1], b);
      OneHas(mid[0], b);
    }
    Gains(ns, i - 1, i, mid, low, num, start, end);
    Ends(ns, i - 1, i, mid);
  }

  lemma GrowLeft(ns: seq<Range>, i: nat, low: nat, num: nat, start: nat, end: nat)
    requires Norm(ns) && Distinct(ns) && Within(ns, start, end) && i < |ns| && num > 0 && start <= low
    requires low + num == ns[i].low && (i > 0 ==> ns[i - 1].high + 1 < low)
    ensures var r := Replaced(ns, i, i + 1, [ns[i].(low := ns[i].low - num)]);
            Gained(ns, r, low, num, start, end) && |r| == |ns| && FirstId(r) == FirstId(ns) && LastId(r) == LastId(ns)
  {
    hide Replaced, Gained;
    var mid := [ns[i].(low := ns[i].low - num)];
    assert ns[i..i + 1] == [ns[i]];
    SmallTotals(ns[i], mid[0]);
    SmallTotals(mid[0], mid[0]);
    forall b: nat ensures Has(mid, b) <==> Has(ns[i..i + 1], b) || low <= b < low + num {
      OneHas(ns[i], b);
      OneHas(mid[0], b);
    }
    Gains(ns, i, i + 1, mid, low, num, start, end);
    Ends(ns, i, i + 1, mid);
  }

  lemma AddNode(ns: seq<Range>, i: nat, low: nat, num: nat, start: nat, end: nat, id: nat)
    requires Norm(ns) && Distinct(ns) && Within(ns, start, end) && i <= |ns| && num > 0 && start <= low
    requires low + num <= end + 1
    requires (i > 0 ==> ns[i - 1].high + 1 < low) && (i < |ns| ==> low + num < ns[i].low)
    requires id != 0 && forall j | 0 <= j < |ns| :: ns[j].id != id
    ensures var r := Replaced(ns, i, i, [Range(id, low, low + num - 1)]);
            && Gained(ns, r, low, num, start, end) && |r| == |ns| + 1
            && FirstId(r) == (if i == 0 then id else FirstId(ns)) && LastId(r) == if i == |ns| then id else LastId(ns)
  {
    hide Replaced, Gained;
    var mid := [Range(id, low, low + num - 1)];
    assert ns[i..i] == [];
    SmallTotals(mid[0], mid[0]);
    forall b: nat ensures Has(mid, b) <==> Has(ns[i..i], b) || low <= b < low + num { OneHas(mid[0], b); }
    Gains(ns, i, i, mid, low, num, start, end);
    Ends(ns, i, i, mid);
  }

  // ----------------------------------------------------------------- allocation

  /** The list of free blocks without the `num` blocks from `low` on, all of them free before. */
  ghost predicate Lost(ns: seq<Range>, ns': seq<Range>, low: nat, num: nat, start: nat, end: nat) {
    && Norm(ns') && Distinct(ns') && Within(ns', start, end) && Total(ns') == Total(ns) - num && num > 0
    && forall b: nat ::
        (low <= b < low + num ==> Has(ns, b)) && (Has(ns', b) <==> Has(ns, b) && !(low <= b < low + num))
  }

  lemma Loses(ns: seq<Range>, i: nat, mid: seq<Range>, low: nat, num: nat, start: nat, end: nat)
    requires Norm(ns) && Distinct(ns) && Within(ns, start, end) && i < |ns| && Fitting(ns, i, i + 1, mid, start, end)
    requires Total(mid) == Total([ns[i]]) - num && num > 0 && ns[i].low <= low && low + num - 1 <= ns[i].high
    requires forall b: nat :: Has(mid, b) <==> ns[i].low <= b <= ns[i].high && !(low <= b < low + num)
    ensures Lost(ns, Replaced(ns, i, i + 1, mid), low, num, start, end)
  {
    hide Distinct, Within, Total, Replaced, Fitting, Has, Norm;
    ReplacedAll(ns, i, i + 1, mid, start, end);
    assert ns[i..i + 1] == [ns[i]];
    forall b: nat
      ensures low <= b < low + num ==> Has(ns, b)
      ensures Has(Replaced(ns, i, i + 1, mid), b) <==> Has(ns, b) && !(low <= b < low + num)
    {
      ReplacedHas(ns, i, i + 1, mid, b);
      OneHas(ns[i], b);
      if ns[i].low <= b <= ns[i].high { OnlyThere(ns, i, b); }
    }
  }

  lemma OnlyThere(ns: seq<Range>, i: nat, b: nat)
    requires Norm(ns) && i < |ns| && ns[i].low <= b <= ns[i].high
    ensures !Has(ns[..i], b) && !Has(ns[i + 1..], b)
  {
    forall p | 0 <= p < i ensures ns[..i][p].high < b { assert ns[p].high + 1 < ns[i].low; }
    var k := i + 1;
    forall p | 0 <= p < |ns| - k ensures b < ns[k..][p].low { assert ns[i].high + 1 < ns[k + p].low; }
  }

  lemma TakeWhole(ns: seq<Range>, i: nat, start: nat, end: nat)
    requires Norm(ns) && Distinct(ns) && Within(ns, start, end) && i < |ns|
    ensures var r := Replaced(ns, i, i + 1, []);
            && Lost(ns, r, ns[i].low, ns[i].high - ns[i].low + 1, start, end) && |r| == |ns| - 1
            && FirstId(r) == (if i > 0 then FirstId(ns) else if |ns| > 1 then ns[1].id else 0)
            && LastId(r) == (if i < |ns| - 1 then LastId(ns) else if |ns| > 1 then ns[|ns| - 2].id else 0)
  {
    hide Replaced, Lost;
    SmallTotals(ns[i], ns[i]);
    Loses(ns, i, [], ns[i].low, ns[i].high - ns[i].low + 1, start, end);
    Ends(ns, i, i + 1, []);
  }

  lemma TakeFront(ns: seq<Range>, i: nat, num: nat, start: nat, end: nat)
    requires Norm(ns) && Distinct(ns) && Within(ns, start, end) && i < |ns| && 0 < num < ns[i].high - ns[i].low + 1
    ensures var r := Replaced(ns, i, i + 1, [ns[i].(low := ns[i].low + num)]);
            Lost(ns, r, ns[i].low, num, start, end) && |r| == |ns| && FirstId(r) == FirstId(ns)
                && LastId(r) == LastId(ns)
  {
    hide Replaced, Lost;
    var mid := [ns[i].(low := ns[i].low + num)];
    SmallTotals(ns[i], ns[i]);
    SmallTotals(mid[0], mid[0]);
    forall b: nat
      ensures Has(mid, b) <==> ns[i].low <= b <= ns[i].high && !(ns[i].low <= b < ns[i].low + num)
    {
      OneHas(mid[0], b);
    }
    Loses(ns, i, mid, ns[i].low, num, start, end);
    Ends(ns, i, i + 1, mid);
  }

  lemma TakeBack(ns: seq<Range>, i: nat, num: nat, start: nat, end: nat)
    requires Norm(ns) && Distinct(ns) && Within(ns, start, end) && i < |ns| && 0 < num < ns[i].high - ns[i].low + 1
    ensures var r := Replaced(ns, i, i + 1, [ns[i].(high := ns[i].high - num)]);
            Lost(ns, r, ns[i].high + 1 - num, num, start, end) && |r| == |ns| && FirstId(r) == FirstId(ns)
                && LastId(r) == LastId(ns)
  {
    hide Replaced, Lost;
    var mid := [ns[i].(high := ns[i].high - num)];
    var low := ns[i].high + 1 - num;
    SmallTotals(ns[i], ns[i]);
    SmallTotals(mid[0], mid[0]);
    forall b: nat
      ensures Has(mid, b) <==> ns[i].low <= b <= ns[i].high && !(low <= b < low + num)
    {
      OneHas(mid[0], b);
    }
    Loses(ns, i, mid, low, num, start, end);
    Ends(ns, i, i + 1, mid);
  }

  /** The superpage split: the part left of the allocation stays in the node, the part right
      of it becomes a new node. */
  lemma TakeMiddle(ns: seq<Range>, i: nat, left: nat, num: nat, start: nat, end: nat, id: nat)
    requires Norm(ns) && Distinct(ns) && Within(ns, start, end) && i < |ns| && left > 0 && num > 0
    requires left + num < ns[i].high - ns[i].low + 1 && id != 0 && forall j | 0 <= j < |ns| :: ns[j].id != id
    ensures var n := ns[i];
            var r := Replaced(ns, i, i + 1, [n.(high := n.low + left - 1), Range(id, n.low + left + num, n.high)]);
            && Lost(ns, r, n.low + left, num, start, end) && |r| == |ns| + 1 && FirstId(r) == FirstId(ns)
            && LastId(r) == if LastId(ns) == n.id then id else LastId(ns)
  {
    hide Replaced, Lost;
    var n := ns[i];
    var a, z := n.(high := n.low + left - 1), Range(id, n.low + left + num, n.high);
    var low := n.low + left;
    SmallTotals(n, n);
    SmallTotals(a, z);
    forall b: nat ensures Has([a, z], b) <==> n.low <= b <= n.high && !(low <= b < low + num) { TwoHas(a, z, b); }
    assert Fitting(ns, i, i + 1, [a, z], start, end);
    Loses(ns, i, [a, z], low, num, start, end);
    Ends(ns, i, i + 1, [a, z]);
    LastIs(ns, i);
  }

  lemma LastIs(ns: seq<Range>, i: nat)
    requires Distinct(ns) && i < |ns|
    ensures LastId(ns) == ns[i].id <==> i == |ns| - 1
    ensures FirstId(ns) == ns[i].id <==> i == 0
  {
  }

  lemma {:induction false} TotalPositive(ns: seq<Range>)
    requires Norm(ns)
    ensures Total(ns) >= |ns|
  {
    if ns != [] { TotalPositive(ns[..|ns| - 1]); }
  }

  /** A name for a new node. */
  method FreshNodeId(ns: seq<Range>) returns (id: nat)
    ensures id != 0 && forall j | 0 <= j < |ns| :: ns[j].id != id
  {
    var used := set n | n in ns :: n.id;
    FreshExists(used + {0});
    id :| id !in used + {0};
    forall j | 0 <= j < |ns| ensures ns[j].id != id { assert ns[j] in ns; }
  }
}
