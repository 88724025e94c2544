/** The block tree of a PMFS inode (pmfs/inode.c): meta blocks of 512 pointers over data
    blocks, as a map from file blocks to blocks. */
module PmfsTree {
  import opened Division

  const FANOUT: nat := 512

  /** File blocks under a tree of height `h`. */
  function Span(h: nat): (s: nat)
    ensures s >= 1
  {
    if h == 0 then 1 else FANOUT * Span(h - 1)
  }

  /** A pointer and what it leads to. */
  datatype Tree = Nil | Data(block: nat) | Meta(block: nat, kids: seq<Tree>)

  ghost predicate Shape(t: Tree, h: nat) {
    match t
    case Nil => true
    case Data(b) => h == 0 && b != 0
    case Meta(b, kids) => h > 0 && b != 0 && |kids| == FANOUT && forall i | 0 <= i < FANOUT :: Shape(kids[i], h - 1)
  }

  function Idx(n: nat, h: nat): (i: nat)
    requires h > 0 && n < Span(h)
    ensures i < FANOUT
  {
    DivMod(n, FANOUT, Span(h - 1));
    n / Span(h - 1)
  }

  function Off(n: nat, h: nat): (r: nat)
    requires h > 0
    ensures r < Span(h - 1)
  {
    n % Span(h - 1)
  }

  /** __pmfs_find_data_block, 0 for a hole. */
  ghost function Look(t: Tree, h: nat, n: nat): nat
    requires Shape(t, h) && n < Span(h)
    decreases h
  {
    match t
    case Nil => 0
    case Data(b) => b
    case Meta(_, kids) => Look(kids[Idx(n, h)], h - 1, Off(n, h))
  }

  lemma IdxOff(n: nat, h: nat)
    requires h > 0 && n < Span(h)
    ensures n == Idx(n, h) * Span(h - 1) + Off(n, h)
  {
  }

  lemma IdxOffOf(i: nat, r: nat, h: nat)
    requires h > 0 && i < FANOUT && r < Span(h - 1)
    ensures i * Span(h - 1) + r < Span(h) && Idx(i * Span(h - 1) + r, h) == i && Off(i * Span(h - 1) + r, h) == r
  {
    Split(i, r, Span(h - 1));
    Grows(FANOUT, i + 1, Span(h - 1));
  }

  /** Below the first child, and beyond it. */
  lemma FirstChild(n: nat, h: nat)
    requires h > 0 && n < Span(h)
    ensures if n < Span(h - 1) then Idx(n, h) == 0 && Off(n, h) == n else Idx(n, h) > 0
  {
    if n < Span(h - 1) {
      IdxOffOf(0, n, h);
      assert 0 * Span(h - 1) + n == n;
    } else {
      IdxOff(n, h);
      if Idx(n, h) == 0 { assert Idx(n, h) * Span(h - 1) == 0; }
    }
  }

  lemma LookMeta(t: Tree, h: nat, n: nat)
    requires t.Meta? && Shape(t, h) && n < Span(h)
    ensures Look(t, h, n) == Look(t.kids[Idx(n, h)], h - 1, Off(n, h))
  {
  }

  // ----------------------------------------------------------- ranges by child

  /** The part of the range `first` to `last` that falls to child `i`. */
  function Lo(first: nat, h: nat, i: nat): (r: nat)
    requires h > 0 && first < Span(h)
    ensures r < Span(h - 1)
  {
    if i == Idx(first, h) then Off(first, h) else 0
  }

  function Hi(last: nat, h: nat, i: nat): (r: nat)
    requires h > 0 && last < Span(h)
    ensures r < Span(h - 1)
  {
    if i == Idx(last, h) then Off(last, h) else Span(h - 1) - 1
  }

  /** A file block is in the range exactly if its child is and it is in the child's part. */
  lemma RangeSplits(first: nat, last: nat, n: nat, h: nat)
    requires h > 0 && first < Span(h) && last < Span(h) && n < Span(h)
    ensures first <= n <= last <==>
            Idx(first, h) <= Idx(n, h) <= Idx(last, h) && Lo(first, h, Idx(n, h)) <= Off(n, h) <= Hi(last, h, Idx(n, h))
  {
    IdxOff(first, h);
    IdxOff(last, h);
    IdxOff(n, h);
    var c := Span(h - 1);
    Order(Idx(first, h), Off(first, h), Idx(n, h), Off(n, h), c);
    Order(Idx(n, h), Off(n, h), Idx(last, h), Off(last, h), c);
  }

  lemma PartOrder(first: nat, last: nat, h: nat, i: nat)
    requires h > 0 && first <= last < Span(h) && Idx(first, h) <= i <= Idx(last, h)
    ensures Lo(first, h, i) <= Hi(last, h, i)
  {
    IdxOff(first, h);
    IdxOff(last, h);
    Order(Idx(first, h), Off(first, h), Idx(last, h), Off(last, h), Span(h - 1));
  }

  lemma IndexOrder(first: nat, last: nat, h: nat)
    requires h > 0 && first <= last < Span(h)
    ensures Idx(first, h) <= Idx(last, h)
  {
    IdxOff(first, h);
    IdxOff(last, h);
    Order(Idx(first, h), Off(first, h), Idx(last, h), Off(last, h), Span(h - 1));
  }

  // ------------------------------------------------------------ blocks in a tree

  function DataOf(t: Tree): multiset<nat> {
    match t
    case Nil => multiset{}
    case Data(b) => multiset{b}
    case Meta(_, kids) => DataSum(kids)
  }

  function DataSum(ts: seq<Tree>): multiset<nat> {
    if ts == [] then multiset{} else DataSum(ts[..|ts| - 1]) + DataOf(ts[|ts| - 1])
  }

  function MetaOf(t: Tree): multiset<nat> {
    match t
    case Nil => multiset{}
    case Data(_) => multiset{}
    case Meta(b, kids) => multiset{b} + MetaSum(kids)
  }

  function MetaSum(ts: seq<Tree>): multiset<nat> {
    if ts == [] then multiset{} else MetaSum(ts[..|ts| - 1]) + MetaOf(ts[|ts| - 1])
  }

  lemma {:induction false} DataUpdate(ts: seq<Tree>, i: nat, t: Tree)
    requires i < |ts|
    ensures DataSum(ts[i := t]) + DataOf(ts[i]) == DataSum(ts) + DataOf(t)
  {
    hide DataOf;
    var n := |ts| - 1;
    if i < n {
      DataUpdate(ts[..n], i, t);
      assert ts[i := t][..n] == ts[..n][i := t];
      Swap(DataSum(ts[..n][i := t]), DataSum(ts[..n]), DataOf(ts[n]), DataOf(ts[i]), DataOf(t));
    } else {
      assert ts[i := t][..n] == ts[..n];
    }
  }

  lemma {:induction false} MetaUpdate(ts: seq<Tree>, i: nat, t: Tree)
    requires i < |ts|
    ensures MetaSum(ts[i := t]) + MetaOf(ts[i]) == MetaSum(ts) + MetaOf(t)
  {
    hide MetaOf;
    var n := |ts| - 1;
    if i < n {
      MetaUpdate(ts[..n], i, t);
      assert ts[i := t][..n] == ts[..n][i := t];
      Swap(MetaSum(ts[..n][i := t]), MetaSum(ts[..n]), MetaOf(ts[n]), MetaOf(ts[i]), MetaOf(t));
    } else {
      assert ts[i := t][..n] == ts[..n];
    }
  }

  lemma Swap(a: multiset<nat>, b: multiset<nat>, l: multiset<nat>, d: multiset<nat>, e: multiset<nat>)
    requires a + d == b + e
    ensures (a + l) + d == (b + l) + e
  {
    assert (a + l) + d == (a + d) + l;
    assert (b + l) + e == (b + e) + l;
  }

  lemma {:induction false} SumNils(ts: seq<Tree>)
    requires forall i | 0 <= i < |ts| :: ts[i] == Nil
    ensures DataSum(ts) == multiset{} && MetaSum(ts) == multiset{}
  {
    if ts != [] { SumNils(ts[..|ts| - 1]); }
  }

  /** No meta block without a pointer. */
  ghost predicate Tight(t: Tree) {
    match t
    case Nil => true
    case Data(_) => true
    case Meta(_, kids) =>
      && (exists i :: 0 <= i < |kids| && kids[i] != Nil)
      && forall i | 0 <= i < |kids| :: Tight(kids[i])
  }

  lemma {:induction false} DataInSum(ts: seq<Tree>, i: nat, b: nat)
    requires i < |ts| && DataOf(ts[i])[b] > 0
    ensures DataSum(ts)[b] >= DataOf(ts[i])[b]
  {
    var n := |ts| - 1;
    if i < n { DataInSum(ts[..n], i, b); }
  }

  /** A mapped block is a data block of the tree. */
  lemma {:induction false} LookData(t: Tree, h: nat, n: nat)
    requires Shape(t, h) && n < Span(h) && Look(t, h, n) != 0
    ensures DataOf(t)[Look(t, h, n)] > 0
    decreases h
  {
    if t.Meta? {
      var i, r := Idx(n, h), Off(n, h);
      LookData(t.kids[i], h - 1, r);
      DataInSum(t.kids, i, Look(t, h, n));
    }
  }

  lemma {:induction false} SomeInSum(ts: seq<Tree>) returns (i: nat)
    requires |DataSum(ts)| > 0
    ensures i < |ts| && |DataOf(ts[i])| > 0
  {
    var n := |ts| - 1;
    if |DataOf(ts[n])| > 0 { i := n; } else { i := SomeInSum(ts[..n]); }
  }

  /** A tree with a data block maps some file block. */
  lemma {:induction false} DataLooks(t: Tree, h: nat) returns (n: nat)
    requires Shape(t, h) && |DataOf(t)| > 0
    ensures n < Span(h) && Look(t, h, n) != 0
    decreases h
  {
    if t.Meta? {
      var i := SomeInSum(t.kids);
      var r := DataLooks(t.kids[i], h - 1);
      IdxOffOf(i, r, h);
      n := i * Span(h - 1) + r;
    } else {
      n := 0;
    }
  }

  lemma {:induction false} TwoInSum(ts: seq<Tree>, i: nat, j: nat, b: nat)
    requires i < j < |ts| && DataOf(ts[i])[b] > 0 && DataOf(ts[j])[b] > 0
    ensures DataSum(ts)[b] >= 2
  {
    var n := |ts| - 1;
    if j < n {
      TwoInSum(ts[..n], i, j, b);
    } else {
      DataInSum(ts[..n], i, b);
    }
  }

  /** Where no data block occurs twice, different file blocks have different blocks. */
  lemma {:induction false} LookDistinct(t: Tree, h: nat, n: nat, m: nat)
    requires Shape(t, h) && n < Span(h) && m < Span(h) && n != m && (forall b :: DataOf(t)[b] <= 1)
    requires Look(t, h, n) != 0
    ensures Look(t, h, n) != Look(t, h, m)
    decreases h
  {
    if t.Meta? && Look(t, h, m) != 0 {
      IdxOff(n, h);
      IdxOff(m, h);
      var i, j := Idx(n, h), Idx(m, h);
      if i == j {
        forall b ensures DataOf(t.kids[i])[b] <= 1 {
          if DataOf(t.kids[i])[b] > 0 { DataInSum(t.kids, i, b); }
          assert DataOf(t)[b] <= 1;
        }
        LookDistinct(t.kids[i], h - 1, Off(n, h), Off(m, h));
      } else {
        OtherChild(t, h, n, m);
      }
    }
  }

  lemma OtherChild(t: Tree, h: nat, n: nat, m: nat)
    requires t.Meta? && Shape(t, h) && n < Span(h) && m < Span(h) && Idx(n, h) != Idx(m, h)
    requires forall b :: DataOf(t)[b] <= 1
    requires Look(t, h, n) != 0 && Look(t, h, m) != 0
    ensures Look(t, h, n) != Look(t, h, m)
  {
    var i, j, b := Idx(n, h), Idx(m, h), Look(t, h, n);
    LookData(t.kids[i], h - 1, Off(n, h));
    LookData(t.kids[j], h - 1, Off(m, h));
    assert DataOf(t)[b] <= 1 && DataOf(t) == DataSum(t.kids);
    if Look(t, h, m) == b { TwoInSum(t.kids, if i < j then i else j, if i < j then j else i, b); }
  }
}
