/** What truncation leaves where the tree loses height (pmfs/inode.c): the pointers that
    survive to the right of the range, and the leftmost nodes that become roots. */
module PmfsShrink {
  import opened Division
  import opened PmfsTree
  import opened PmfsBTree

  lemma {:induction false} TruncShape(t: Tree, h: nat, first: nat, last: nat)
    requires Shape(t, h) && first <= last < Span(h)
    ensures Shape(Trunc(t, h, first, last), h)
    decreases h
  {
    if t.Meta? {
      hide Idx, Lo, Hi, Trunc, TruncKids;
      TruncMeta(t, h, first, last);
      var out := TruncKids(t, h, first, last);
      forall j | 0 <= j < FANOUT ensures Shape(out[j], h - 1) {
        KidIs(t, h, first, last, j);
        if Idx(first, h) <= j <= Idx(last, h) { TruncShape(t.kids[j], h - 1, Lo(first, h, j), Hi(last, h, j)); }
      }
    }
  }

  // ------------------------------------------------ pointers right of the range

  function Max(a: nat, b: nat): nat { if a < b then b else a }

  function Min(a: nat, b: nat): nat { if a < b then a else b }

  /** Of file blocks from the range on, truncation leaves a pointer after `m` exactly if there
      was one after both `m` and the range. */
  lemma {:induction false} TruncAfter(t: Tree, h: nat, first: nat, last: nat, m: nat)
    requires Shape(t, h) && first <= last < Span(h) && m < Span(h) && first <= m + 1
    ensures Shape(Trunc(t, h, first, last), h)
    ensures After(Trunc(t, h, first, last), h, m) <==> After(t, h, Max(last, m))
    decreases h, 1
  {
    TruncShape(t, h, first, last);
    if t.Meta? {
      hide Idx, Off, Lo, Hi, Trunc, TruncKids, After, Shape;
      KidsAfter(t, h, first, last, m);
      TruncMeta(t, h, first, last);
      NilAfter(h, m);
      AfterMeta(t, h, Max(last, m));
      var out := TruncKids(t, h, first, last);
      if !NoneLeft(out) {
        AfterMeta(t.(kids := out), h, m);
      } else {
        NilAfter(h - 1, Off(m, h));
      }
    }
  }

  lemma NilAfter(h: nat, n: nat)
    requires n < Span(h)
    ensures After(Nil, h, n)
  {
  }

  /** The same of the children. */
  lemma {:induction false} KidsAfter(t: Tree, h: nat, first: nat, last: nat, m: nat)
    requires t.Meta? && Shape(t, h) && first <= last < Span(h) && m < Span(h) && first <= m + 1
    ensures var out, i, M := TruncKids(t, h, first, last), Idx(m, h), Max(last, m);
            && Shape(out[i], h - 1)
            && ((forall j | i < j < FANOUT :: out[j] == Nil) && After(out[i], h - 1, Off(m, h)) <==>
                (forall j | Idx(M, h) < j < FANOUT :: t.kids[j] == Nil) && After(t.kids[Idx(M, h)], h - 1, Off(M, h)))
    decreases h, 0
  {
    hide Idx, Off, Lo, Hi, Trunc, TruncKids, After, Shape;
    AfterMeta(t, h, last);
    var out, i, lo, hi := TruncKids(t, h, first, last), Idx(m, h), Idx(first, h), Idx(last, h);
    forall j | 0 <= j < FANOUT ensures !(lo <= j <= hi) ==> out[j] == t.kids[j] { KidIs(t, h, first, last, j); }
    IndexOrder(first, last, h);
    EdgeAfter(t, h, first, last, m);
    if i == hi { SameChild(last, m, h); }
    if m < last {
      IndexOrder(m, last, h);
      forall j | i < j < hi ensures out[j] == Nil { InnerGoes(t, h, first, last, m, j); }
      if i < hi { RightEdge(t, h, first, last, m); }
    } else {
      IndexOrder(last, m, h);
    }
  }

  /** The child that `m` is in. */
  lemma {:induction false} EdgeAfter(t: Tree, h: nat, first: nat, last: nat, m: nat)
    requires t.Meta? && Shape(t, h) && first <= last < Span(h) && m < Span(h) && first <= m + 1
    ensures var out, i := TruncKids(t, h, first, last), Idx(m, h);
            && Shape(out[i], h - 1)
            && (After(out[i], h - 1, Off(m, h)) <==>
                if i < Idx(last, h) then true
                    else if i == Idx(last, h) then After(t.kids[i], h - 1, Max(Off(last, h), Off(m, h)))
                else After(t.kids[i], h - 1, Off(m, h)))
    decreases h - 1, 2
  {
    hide Idx, Off, Trunc, TruncKids, After, Shape;
    AfterMeta(t, h, last);
    var i := Idx(m, h);
    KidIs(t, h, first, last, i);
    IndexOrder(first, last, h);
    if Idx(first, h) <= i <= Idx(last, h) {
      InnerOrder(first, m, h);
      TruncAfter(t.kids[i], h - 1, Lo(first, h, i), Hi(last, h, i), Off(m, h));
      if i < Idx(last, h) { AfterLast(t.kids[i], h - 1); }
    } else if i < Idx(first, h) {
      InnerOrder(first, m, h);
      AfterLast(t.kids[i], h - 1);
    }
  }

  lemma SameChild(last: nat, m: nat, h: nat)
    requires h > 0 && last < Span(h) && m < Span(h) && Idx(m, h) == Idx(last, h)
    ensures m < last <==> Off(m, h) < Off(last, h)
  {
    hide Idx, Off;
    IdxOff(last, h);
    IdxOff(m, h);
  }

  lemma InnerOrder(first: nat, m: nat, h: nat)
    requires h > 0 && first < Span(h) && m < Span(h) && first <= m + 1
    ensures Idx(m, h) == Idx(first, h) ==> Off(first, h) <= Off(m, h) + 1
    ensures Idx(m, h) < Idx(first, h) ==> m + 1 == first && Off(first, h) == 0 && Off(m, h) == Span(h - 1) - 1
  {
    hide Idx, Off;
    if m + 1 == first {
      PreviousBlock(first, h);
    } else {
      IdxOff(first, h);
      IdxOff(m, h);
      Order(Idx(first, h), Off(first, h), Idx(m, h), Off(m, h), Span(h - 1));
    }
  }

  /** Children between that of `m` and the right edge of the range are emptied. */
  lemma InnerGoes(t: Tree, h: nat, first: nat, last: nat, m: nat, j: nat)
    requires t.Meta? && Shape(t, h) && first <= last < Span(h) && m < Span(h) && first <= m + 1
    requires Idx(m, h) < j < Idx(last, h)
    ensures TruncKids(t, h, first, last)[j] == Nil
  {
    hide Idx, Off, Trunc, TruncKids, After, Before, Shape;
    KidIs(t, h, first, last, j);
    LeftOpen(first, m, h, j);
    TruncNil(t.kids[j], h - 1, Lo(first, h, j), Hi(last, h, j));
    BeforeZero(t.kids[j], h - 1);
    AfterLast(t.kids[j], h - 1);
  }

  lemma LeftOpen(first: nat, m: nat, h: nat, j: nat)
    requires h > 0 && first < Span(h) && m < Span(h) && first <= m + 1 && Idx(m, h) < j
    ensures Idx(first, h) <= j && Lo(first, h, j) == 0
  {
    hide Idx, Off;
    InnerOrder(first, m, h);
    if m + 1 == first {
      PreviousBlock(first, h);
    } else {
      IndexOrder(first, m, h);
    }
  }

  lemma RightEdge(t: Tree, h: nat, first: nat, last: nat, m: nat)
    requires t.Meta? && Shape(t, h) && first <= last < Span(h) && m < Span(h) && first <= m + 1
    requires Idx(m, h) < Idx(last, h)
    ensures h > 0 && Shape(t.kids[Idx(last, h)], h - 1)
    ensures TruncKids(t, h, first, last)[Idx(last, h)] == Nil <==> After(t.kids[Idx(last, h)], h - 1, Off(last, h))
  {
    hide Idx, Off, Trunc, TruncKids, After, Before, Shape;
    var j := Idx(last, h);
    KidIs(t, h, first, last, j);
    LeftOpen(first, m, h, j);
    TruncNil(t.kids[j], h - 1, Lo(first, h, j), Hi(last, h, j));
    BeforeZero(t.kids[j], h - 1);
  }

  // ------------------------------------------------------------- leftmost nodes

  /** The node of height `k` on the leftmost path. */
  ghost function LeftMost(t: Tree, h: nat, k: nat): (l: Tree)
    requires Shape(t, h) && k <= h
    ensures Shape(l, k)
    decreases h
  {
    if h == k then t else if t.Meta? then LeftMost(t.kids[0], h - 1, k) else Nil
  }

  lemma {:induction false} LeftDeeper(t: Tree, h: nat, k: nat)
    requires Shape(t, h) && k < h
    ensures var l := LeftMost(t, h, k + 1); LeftMost(t, h, k) == if l.Meta? then l.kids[0] else Nil
    decreases h
  {
    if k + 1 < h && t.Meta? { LeftDeeper(t.kids[0], h - 1, k); }
  }

  lemma {:induction false} LeftNil(t: Tree, h: nat, j: nat, k: nat)
    requires Shape(t, h) && j <= k <= h && LeftMost(t, h, k) == Nil
    ensures LeftMost(t, h, j) == Nil
    decreases k
  {
    if j < k {
      LeftDeeper(t, h, k - 1);
      LeftNil(t, h, j, k - 1);
    }
  }

  /** Truncation of the tree truncates its leftmost nodes. */
  lemma {:induction false} TruncLeft(t: Tree, h: nat, first: nat, last: nat, k: nat)
    requires Shape(t, h) && first <= last < Span(h) && k <= h && first < Span(k)
    ensures Shape(Trunc(t, h, first, last), h) && first <= Min(last, Span(k) - 1) < Span(k)
    ensures LeftMost(Trunc(t, h, first, last), h, k) == Trunc(LeftMost(t, h, k), k, first, Min(last, Span(k) - 1))
    decreases h
  {
    TruncShape(t, h, first, last);
    if k < h && t.Meta? {
      hide Idx, Off, Trunc, TruncKids, Shape;
      SpanUp(k, h - 1);
      FirstChild(first, h);
      FirstChild(last, h);
      KidIs(t, h, first, last, 0);
      TruncMeta(t, h, first, last);
      TruncLeft(t.kids[0], h - 1, first, Min(last, Span(h - 1) - 1), k);
      LeftOfNil(h - 1, k);
    } else if k < h {
      hide Shape;
      LeftOfNil(h, k);
      TruncOfNil(t, h, k, first, last);
    }
  }

  /** A leftmost node before the range stays as it is. */
  lemma {:induction false} TruncBeyond(t: Tree, h: nat, first: nat, last: nat, k: nat)
    requires Shape(t, h) && first <= last < Span(h) && k <= h && first == Span(k)
    ensures Shape(Trunc(t, h, first, last), h) && LeftMost(Trunc(t, h, first, last), h, k) == LeftMost(t, h, k)
    decreases h
  {
    TruncShape(t, h, first, last);
    if k < h && t.Meta? {
      hide Idx, Off, Trunc, TruncKids, Shape;
      FirstChild(first, h);
      FirstChild(last, h);
      IndexOrder(first, last, h);
      KidIs(t, h, first, last, 0);
      TruncMeta(t, h, first, last);
      LeftOfNil(h - 1, k);
      if k < h - 1 {
        SpanUp(k + 1, h - 1);
        assert Span(k + 1) == FANOUT * Span(k);
        TruncBeyond(t.kids[0], h - 1, first, Min(last, Span(h - 1) - 1), k);
      }
    } else if k < h {
      LeftOfNil(h, k);
    }
  }

  lemma LeftOfNil(h: nat, k: nat)
    requires k <= h
    ensures Shape(Nil, h) && LeftMost(Nil, h, k) == Nil
  {
  }

  lemma TruncOfNil(t: Tree, h: nat, k: nat, first: nat, last: nat)
    requires Shape(t, h) && !t.Meta? && k < h && first <= last < Span(h) && first < Span(k)
    ensures t == Nil && Trunc(t, h, first, last) == Nil && first <= Min(last, Span(k) - 1) < Span(k)
    ensures Trunc(Nil, k, first, Min(last, Span(k) - 1)) == Nil
  {
  }

  lemma {:induction false} SpanUp(a: nat, b: nat)
    requires a <= b
    ensures Span(a) <= Span(b)
  {
    if a < b { SpanUp(a, b - 1); }
  }

  /** A leftmost node maps what the tree maps, as far as it reaches. */
  lemma {:induction false} LeftLook(t: Tree, h: nat, k: nat, n: nat)
    requires Shape(t, h) && k <= h && n < Span(k)
    ensures n < Span(h) && Look(LeftMost(t, h, k), k, n) == Look(t, h, n)
    decreases h
  {
    SpanUp(k, h);
    if k < h && t.Meta? {
      hide Idx, Off;
      SpanUp(k, h - 1);
      FirstChild(n, h);
      LookMeta(t, h, n);
      LeftLook(t.kids[0], h - 1, k, n);
    }
  }

  // ------------------------------------------------------------ dropped children

  /** The data and meta blocks under all children but the first. */
  ghost function RestData(t: Tree): multiset<nat>
    requires t.Meta? && |t.kids| > 0
  {
    DataSum(t.kids[0 := Nil])
  }

  ghost function RestMeta(t: Tree): multiset<nat>
    requires t.Meta? && |t.kids| > 0
  {
    MetaSum(t.kids[0 := Nil])
  }

  lemma RestSplit(t: Tree)
    requires t.Meta? && |t.kids| > 0
    ensures DataOf(t) == DataOf(t.kids[0]) + RestData(t)
    ensures MetaOf(t) == multiset{t.block} + (MetaOf(t.kids[0]) + RestMeta(t))
  {
    hide DataSum, MetaSum;
    NilHoldsNothing();
    DataUpdate(t.kids, 0, Nil);
    MetaUpdate(t.kids, 0, Nil);
    assert DataSum(t.kids) + multiset{} == DataSum(t.kids);
    assert MetaSum(t.kids) + multiset{} == MetaSum(t.kids);
    assert DataOf(t.kids[0]) + RestData(t) == RestData(t) + DataOf(t.kids[0]);
    assert MetaOf(t.kids[0]) + RestMeta(t) == RestMeta(t) + MetaOf(t.kids[0]);
  }

  lemma {:induction false} SumsEmpty(ts: seq<Tree>)
    ensures DataSum(ts) + MetaSum(ts) == multiset{} <==> forall i | 0 <= i < |ts| :: ts[i] == Nil
  {
    if ts != [] {
      var n := |ts| - 1;
      SumsEmpty(ts[..n]);
      SomethingThere(ts[n]);
      EmptySum(DataSum(ts[..n]), DataOf(ts[n]), MetaSum(ts[..n]), MetaOf(ts[n]));
      if ts[n] == Nil && forall i | 0 <= i < n :: ts[..n][i] == Nil {
        forall i | 0 <= i < |ts| ensures ts[i] == Nil { if i < n { assert ts[..n][i] == Nil; } }
      }
      if forall i | 0 <= i < |ts| :: ts[i] == Nil {
        forall i | 0 <= i < n ensures ts[..n][i] == Nil {}
      }
    }
  }

  lemma EmptySum(a: multiset<nat>, b: multiset<nat>, c: multiset<nat>, d: multiset<nat>)
    ensures (a + b) + (c + d) == multiset{} <==> a + c == multiset{} && b + d == multiset{}
  {
    assert (a + b) + (c + d) == (a + c) + (b + d);
    assert |(a + c) + (b + d)| == |a + c| + |b + d|;
  }

  lemma SomethingThere(t: Tree)
    ensures DataOf(t) + MetaOf(t) == multiset{} <==> t == Nil
  {
    if t.Meta? { assert t.block in DataOf(t) + MetaOf(t); }
    if t.Data? { assert t.block in DataOf(t) + MetaOf(t); }
  }

  /** Making the first child the root drops nothing exactly if there is no other child. */
  lemma RestEmpty(t: Tree, h: nat, m: nat)
    requires t.Meta? && Shape(t, h) && h > 0 && m < Span(h - 1) && m < Span(h)
    ensures |t.kids| > 0 && Shape(t.kids[0], h - 1)
    ensures After(t, h, m) <==> RestData(t) + RestMeta(t) == multiset{} && After(t.kids[0], h - 1, m)
  {
    hide Idx, Off, After;
    FirstChild(m, h);
    AfterMeta(t, h, m);
    var ts := t.kids[0 := Nil];
    SumsEmpty(ts);
    if forall j | 0 < j < FANOUT :: t.kids[j] == Nil {
      forall j | 0 <= j < |ts| ensures ts[j] == Nil {}
    }
    if forall j | 0 <= j < |ts| :: ts[j] == Nil {
      forall j | 0 < j < FANOUT ensures t.kids[j] == Nil { assert ts[j] == Nil; }
    }
  }

  /** A data block is dropped with the other children exactly if a file block there is mapped. */
  lemma RestLooks(t: Tree, h: nat)
    requires t.Meta? && Shape(t, h) && h > 0
    ensures |t.kids| > 0 && (|RestData(t)| == 0 <==> forall n: nat | Span(h - 1) <= n < Span(h) :: Look(t, h, n) == 0)
  {
    hide Idx, Off, Look;
    var r := t.(kids := t.kids[0 := Nil]);
    assert DataOf(r) == RestData(t);
    forall n: nat | n < Span(h) ensures Look(r, h, n) == if n < Span(h - 1) then 0 else Look(t, h, n) {
      FirstChild(n, h);
      LookMeta(r, h, n);
      LookMeta(t, h, n);
      if n < Span(h - 1) { NilLook(h - 1, Off(n, h)); }
    }
    if |DataOf(r)| > 0 {
      var n := DataLooks(r, h);
      assert Look(t, h, n) != 0;
    }
    if n: nat :| Span(h - 1) <= n < Span(h) && Look(t, h, n) != 0 { LookData(r, h, n); }
  }

  lemma NilLook(h: nat, n: nat)
    requires n < Span(h)
    ensures Look(Nil, h, n) == 0
  {
  }

  /** The leftmost subtree has all data blocks exactly if no file block beyond it is mapped. */
  lemma {:induction false} DataLeft(t: Tree, h: nat, k: nat)
    requires Shape(t, h) && k <= h
    ensures var l := LeftMost(t, h, k);
            && |DataOf(l)| <= |DataOf(t)| && Span(k) <= Span(h)
            && (|DataOf(l)| == |DataOf(t)| <==> NoneBeyond(t, h, k))
    decreases h
  {
    hide Idx, Off, Look, RestData;
    SpanUp(k, h);
    if k < h {
      if t.Meta? {
        SpanUp(k, h - 1);
        DataLeft(t.kids[0], h - 1, k);
        RestSplit(t);
        RestLooks(t, h);
        forall n: nat | n < Span(h - 1) ensures n < Span(h) && Look(t, h, n) == Look(t.kids[0], h - 1, n) {
          FirstLook(t, h, n);
        }
        assert |DataOf(t)| == |DataOf(t.kids[0])| + |RestData(t)|;
        if |DataOf(LeftMost(t, h, k))| == |DataOf(t)| {
          forall n: nat | Span(k) <= n < Span(h) ensures Look(t, h, n) == 0 {
            if n < Span(h - 1) { assert Look(t.kids[0], h - 1, n) == 0; }
          }
        } else if |RestData(t)| == 0 {
          var n: nat :| Span(k) <= n < Span(h - 1) && Look(t.kids[0], h - 1, n) != 0;
          assert Look(t, h, n) != 0;
        }
      } else {
        forall n: nat | n < Span(h) ensures Look(t, h, n) == 0 { NilLook(h, n); }
      }
    }
  }

  ghost predicate NoneBeyond(t: Tree, h: nat, k: nat)
    requires Shape(t, h)
  {
    forall n: nat | Span(k) <= n < Span(h) :: Look(t, h, n) == 0
  }

  lemma FirstLook(t: Tree, h: nat, n: nat)
    requires t.Meta? && Shape(t, h) && h > 0 && n < Span(h - 1)
    ensures n < Span(h) && Look(t, h, n) == Look(t.kids[0], h - 1, n)
  {
    SpanUp(h - 1, h);
    FirstChild(n, h);
    LookMeta(t, h, n);
  }
}
