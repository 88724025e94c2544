/** The lists of retained blocks (nova/snapshot.c): chains of memory pages of 127 entries,
    each page tagged with the snapshot it was written for, and the two loops that walk them. */
module NovaSnapshotLists {
  datatype ListEntry = ListEntry(id: nat, died: nat, deleted: bool)
  datatype ListPage = ListPage(epoch: nat, ents: seq<ListEntry>)

  /** Entries take 32 bytes and the page tail starts at 4064. */
  const PER_PAGE: nat := 4064 / 32

  // -------------------------------------------------------- what a list records

  /** An entry that has not been deleted, and the tag of its page. */
  datatype Row = Row(id: nat, died: nat, tag: nat)

  function EntRows(ents: seq<ListEntry>, tag: nat): seq<Row> {
    if ents == [] then []
    else
      var e := ents[|ents| - 1];
      EntRows(ents[..|ents| - 1], tag) + (if e.deleted then [] else [Row(e.id, e.died, tag)])
  }

  function Rows(pages: seq<ListPage>): seq<Row> {
    if pages == [] then []
    else
      var g := pages[|pages| - 1];
      Rows(pages[..|pages| - 1]) + EntRows(g.ents, g.epoch)
  }

  /** Dead by epoch `n`, in a page written for an earlier snapshot. */
  predicate Stale(r: Row, n: nat) { r.tag < n && r.died <= n }

  function Kept(rows: seq<Row>, n: nat): seq<Row> {
    if rows == [] then []
        else Kept(rows[..|rows| - 1], n) + (if Stale(rows[|rows| - 1], n) then [] else [rows[|rows| - 1]])
  }

  /** The blocks of the stale rows, in order. */
  function Gone(rows: seq<Row>, n: nat): seq<nat> {
    if rows == [] then []
        else Gone(rows[..|rows| - 1], n) + (if Stale(rows[|rows| - 1], n) then [rows[|rows| - 1].id] else [])
  }

  function Ids(rows: seq<Row>): (g: seq<nat>)
    ensures |g| == |rows| && forall i | 0 <= i < |g| :: g[i] == rows[i].id
  {
    seq(|rows|, i requires 0 <= i < |rows| => rows[i].id)
  }

  lemma {:induction false} RowsConcat(a: seq<ListPage>, b: seq<ListPage>)
    ensures Rows(a + b) == Rows(a) + Rows(b)
    decreases |b|
  {
    hide EntRows;
    if b == [] {
      assert a + b == a;
    } else {
      RowsConcat(a, b[..|b| - 1]);
      assert (a + b)[..|a + b| - 1] == a + b[..|b| - 1];
    }
  }

  lemma RowsSnoc(a: seq<ListPage>, g: ListPage)
    ensures Rows(a + [g]) == Rows(a) + EntRows(g.ents, g.epoch)
  {
    assert (a + [g])[..|a|] == a;
  }

  lemma EntSnoc(ents: seq<ListEntry>, e: ListEntry, tag: nat)
    ensures EntRows(ents + [e], tag) == EntRows(ents, tag) + (if e.deleted then [] else [Row(e.id, e.died, tag)])
  {
    assert (ents + [e])[..|ents|] == ents;
  }

  lemma {:induction false} KeptConcat(a: seq<Row>, b: seq<Row>, n: nat)
    ensures Kept(a + b, n) == Kept(a, n) + Kept(b, n) && Gone(a + b, n) == Gone(a, n) + Gone(b, n)
    decreases |b|
  {
    if b == [] {
      assert a + b == a;
    } else {
      KeptConcat(a, b[..|b| - 1], n);
      assert (a + b)[..|a + b| - 1] == a + b[..|b| - 1];
    }
  }

  lemma {:induction false} EntTags(ents: seq<ListEntry>, tag: nat)
    ensures forall r | r in EntRows(ents, tag) :: r.tag == tag
  {
    if ents != [] { EntTags(ents[..|ents| - 1], tag); }
  }

  /** Rows that are not stale all stay. */
  lemma {:induction false} KeptAll(rows: seq<Row>, n: nat)
    requires forall r | r in rows :: !Stale(r, n)
    ensures Kept(rows, n) == rows && Gone(rows, n) == []
  {
    hide Stale, Kept, Gone;
    KeptStep(rows, n);
    if rows != [] {
      var k := |rows| - 1;
      forall r | r in rows[..k] ensures !Stale(r, n) { assert r in rows; }
      KeptAll(rows[..k], n);
      assert rows == rows[..k] + [rows[k]];
    }
  }

  lemma KeptStep(rows: seq<Row>, n: nat)
    ensures rows == [] ==> Kept(rows, n) == [] && Gone(rows, n) == []
    ensures rows != [] && !Stale(rows[|rows| - 1], n) ==>
              Kept(rows, n) == Kept(rows[..|rows| - 1], n) + [rows[|rows| - 1]]
                  && Gone(rows, n) == Gone(rows[..|rows| - 1], n)
  {
    hide Stale;
  }

  // ------------------------------------------------------------------ appending

  /** nova_append_snapshot_list_entry: on the tail page, or on a new page for snapshot `n`. */
  function Appended(pages: seq<ListPage>, e: ListEntry, n: nat): seq<ListPage>
    requires pages != []
  {
    var g := pages[|pages| - 1];
    if |g.ents| + 1 > PER_PAGE then pages + [ListPage(n, [e])]
    else pages[..|pages| - 1] + [g.(ents := g.ents + [e])]
  }

  lemma {:induction false} AppendedRows(pages: seq<ListPage>, e: ListEntry, n: nat)
    requires pages != [] && pages[|pages| - 1].epoch == n && !e.deleted
    ensures Rows(Appended(pages, e, n)) == Rows(pages) + [Row(e.id, e.died, n)]
  {
    hide Rows;
    var g := pages[|pages| - 1];
    assert pages == pages[..|pages| - 1] + [g];
    RowsSnoc(pages[..|pages| - 1], g);
    if |g.ents| + 1 > PER_PAGE {
      RowsSnoc(pages, ListPage(n, [e]));
      assert [e][..0] == [];
    } else {
      RowsSnoc(pages[..|pages| - 1], g.(ents := g.ents + [e]));
      EntSnoc(g.ents, e, n);
    }
  }

  // ------------------------------------------------------------- shape of a list

  /** No page between the first and the last is empty. The loops look for the mark at the end
      of a page once per entry, so they take the mark of an empty page in between for one. */
  ghost predicate Walkable(pages: seq<ListPage>) {
    forall i | 0 < i < |pages| - 1 :: pages[i].ents != []
  }

  /** Where the cleaning of snapshot `n` goes, which stops at the first page of `n`. */
  ghost predicate Cleanly(pages: seq<ListPage>, n: nat) {
    forall i | 0 < i < |pages| - 1 && pages[i].epoch < n :: pages[i].ents != []
  }

  /** The first empty page in between. */
  ghost predicate Trap(pages: seq<ListPage>, p: nat) {
    0 < p < |pages| - 1 && pages[p].ents == [] && forall i | 0 < i < p :: pages[i].ents != []
  }

  /** The list of snapshot `n`: tags ascend, and its tail page was written for `n`. */
  ghost predicate Tagged(pages: seq<ListPage>, n: nat) {
    && pages != [] && pages[|pages| - 1].epoch == n
    && forall i, j | 0 <= i <= j < |pages| :: pages[i].epoch <= pages[j].epoch
  }

  /** A joined list can be walked exactly if both could and neither end that comes to lie
      inside is empty. */
  lemma JoinWalkable(prev: seq<ListPage>, next: seq<ListPage>)
    requires prev != [] && next != []
    ensures Walkable(prev + next) <==>
            && Walkable(prev) && Walkable(next)
            && (|prev| > 1 ==> prev[|prev| - 1].ents != []) && (|next| > 1 ==> next[0].ents != [])
  {
    var c := prev + next;
    if Walkable(c) {
      forall i | 0 < i < |prev| ensures prev[i].ents != [] { assert c[i] == prev[i]; }
      forall i | 0 <= i < |next| - 1 ensures next[i].ents != [] { assert c[|prev| + i] == next[i]; }
    }
    forall i | 0 < i < |c| - 1
      ensures (Walkable(prev) && Walkable(next) && (|prev| > 1 ==> prev[|prev| - 1].ents != [])
               && (|next| > 1 ==> next[0].ents != []))
              ==> c[i].ents != []
    {
      if i >= |prev| { assert c[i] == next[i - |prev|]; }
    }
  }

  /** ... and cleaned, when `next` is the list of `n` and `prev` that of an earlier snapshot. */
  lemma JoinCleanly(prev: seq<ListPage>, next: seq<ListPage>, s: nat, n: nat)
    requires Tagged(prev, s) && Tagged(next, n) && s < n
    ensures Cleanly(prev + next, n) <==>
            && Walkable(prev) && Cleanly(next, n)
            && (|prev| > 1 ==> prev[|prev| - 1].ents != []) && (|next| > 1 && next[0].epoch < n ==> next[0].ents != [])
  {
    var c := prev + next;
    forall i | 0 <= i < |prev| ensures prev[i].epoch < n { assert prev[i].epoch <= prev[|prev| - 1].epoch; }
    if Cleanly(c, n) {
      forall i | 0 < i < |prev| ensures prev[i].ents != [] { assert c[i] == prev[i]; }
      forall i | 0 <= i < |next| - 1 && next[i].epoch < n
        ensures next[i].ents != []
      {
        assert c[|prev| + i] == next[i];
      }
    }
    forall i | 0 < i < |c| - 1 && c[i].epoch < n
      ensures (Walkable(prev) && Cleanly(next, n) && (|prev| > 1 ==> prev[|prev| - 1].ents != [])
               && (|next| > 1 && next[0].epoch < n ==> next[0].ents != []))
              ==> c[i].ents != []
    {
      if i >= |prev| { assert c[i] == next[i - |prev|]; }
    }
  }

  // ------------------------------------------------------------ the cleaning loop

  function Mark(e: ListEntry, n: nat): ListEntry { if !e.deleted && e.died <= n then e.(deleted := true) else e }

  function Marked(ents: seq<ListEntry>, n: nat): (m: seq<ListEntry>)
    ensures |m| == |ents| && forall i | 0 <= i < |m| :: m[i] == Mark(ents[i], n)
  {
    seq(|ents|, i requires 0 <= i < |ents| => Mark(ents[i], n))
  }

  lemma {:induction false} MarkedRows(ents: seq<ListEntry>, tag: nat, n: nat)
    requires tag < n
    ensures EntRows(Marked(ents, n), tag) == Kept(EntRows(ents, tag), n)
  {
    if ents != [] {
      var k := |ents| - 1;
      MarkedRows(ents[..k], tag, n);
      assert Marked(ents, n)[..k] == Marked(ents[..k], n);
      var e := ents[k];
      KeptConcat(EntRows(ents[..k], tag), if e.deleted then [] else [Row(e.id, e.died, tag)], n);
    }
  }

  /** `out` is `pages` with the stale entries of the first `p` pages, and of the first `k`
      entries of page `p`, marked deleted; `gone` are their blocks. */
  ghost predicate Cleaned(pages: seq<ListPage>, n: nat, p: nat, k: nat, out: seq<ListPage>, gone: seq<nat>)
    requires p < |pages| && k <= |pages[p].ents|
  {
    && |out| == |pages|
    && (forall q | 0 <= q < p :: out[q] == pages[q].(ents := Marked(pages[q].ents, n)))
    && out[p] == pages[p].(ents := Marked(pages[p].ents[..k], n) + pages[p].ents[k..])
    && (forall q | p < q < |pages| :: out[q] == pages[q])
    && gone == Gone(Rows(pages[..p]) + EntRows(pages[p].ents[..k], pages[p].epoch), n)
  }

  lemma CleanEntry(pages: seq<ListPage>, n: nat, p: nat, k: nat, out: seq<ListPage>, gone: seq<nat>)
    requires p < |pages| && k < |pages[p].ents| && Cleaned(pages, n, p, k, out, gone) && pages[p].epoch < n
    ensures |out| == |pages| && |out[p].ents| == |pages[p].ents| && out[p].ents[k] == pages[p].ents[k]
    ensures var e := pages[p].ents[k];
            var out' := out[p := out[p].(ents := out[p].ents[k := Mark(e, n)])];
            Cleaned(pages, n, p, k + 1, out', if !e.deleted && e.died <= n then gone + [e.id] else gone)
  {
    var g := pages[p];
    var e := g.ents[k];
    assert g.ents[..k + 1] == g.ents[..k] + [e];
    assert Marked(g.ents[..k + 1], n) == Marked(g.ents[..k], n) + [Mark(e, n)];
    assert out[p].ents[k := Mark(e, n)] == Marked(g.ents[..k + 1], n) + g.ents[k + 1..];
    EntSnoc(g.ents[..k], e, g.epoch);
    var a := Rows(pages[..p]) + EntRows(g.ents[..k], g.epoch);
    var b := if e.deleted then [] else [Row(e.id, e.died, g.epoch)];
    assert Rows(pages[..p]) + EntRows(g.ents[..k + 1], g.epoch) == a + b;
    KeptConcat(a, b, n);
  }

  lemma CleanPage(pages: seq<ListPage>, n: nat, p: nat, out: seq<ListPage>, gone: seq<nat>)
    requires p + 1 < |pages| && Cleaned(pages, n, p, |pages[p].ents|, out, gone)
    ensures Cleaned(pages, n, p + 1, 0, out, gone)
  {
    var g, h := pages[p], pages[p + 1];
    assert g.ents[..|g.ents|] == g.ents && g.ents[|g.ents|..] == [];
    assert pages[..p + 1] == pages[..p] + [g];
    RowsSnoc(pages[..p], g);
    assert Marked(h.ents[..0], n) == [];
    assert EntRows(h.ents[..0], h.epoch) == [];
    assert out[p] == g.(ents := Marked(g.ents, n));
    assert out[p + 1] == h.(ents := Marked(h.ents[..0], n) + h.ents[0..]);
    assert Rows(pages[..p + 1]) + [] == Rows(pages[..p]) + EntRows(g.ents, g.epoch);
  }

  lemma {:induction false} MarkedPages(pages: seq<ListPage>, n: nat, out: seq<ListPage>)
    requires |out| == |pages|
    requires forall q | 0 <= q < |pages| :: pages[q].epoch < n && out[q] == pages[q].(ents := Marked(pages[q].ents, n))
    ensures Rows(out) == Kept(Rows(pages), n)
  {
    if pages != [] {
      var k := |pages| - 1;
      MarkedPages(pages[..k], n, out[..k]);
      MarkedRows(pages[k].ents, pages[k].epoch, n);
      KeptConcat(Rows(pages[..k]), EntRows(pages[k].ents, pages[k].epoch), n);
    }
  }

  lemma {:induction false} LateRows(pages: seq<ListPage>, n: nat)
    requires forall q | 0 <= q < |pages| :: pages[q].epoch >= n
    ensures forall r | r in Rows(pages) :: r.tag >= n
  {
    if pages != [] {
      LateRows(pages[..|pages| - 1], n);
      EntTags(pages[|pages| - 1].ents, pages[|pages| - 1].epoch);
    }
  }

  /** Stopping at a page of snapshot `n` itself leaves nothing stale behind. */
  lemma CleanDone(pages: seq<ListPage>, n: nat, p: nat, out: seq<ListPage>, gone: seq<nat>)
    requires p < |pages| && Cleaned(pages, n, p, 0, out, gone)
    requires forall q | 0 <= q < p :: pages[q].epoch < n
    requires forall q | p <= q < |pages| :: pages[q].epoch >= n
    ensures SameShape(pages, out)
    ensures Rows(out) == Kept(Rows(pages), n) && gone == Gone(Rows(pages), n)
  {
    hide Rows, Kept, Gone, EntRows, Marked;
    CleanRest(pages, n, p, out, gone);
    assert pages == pages[..p] + pages[p..] && out == out[..p] + out[p..];
    RowsConcat(pages[..p], pages[p..]);
    RowsConcat(out[..p], out[p..]);
    MarkedPages(pages[..p], n, out[..p]);
    LateRows(pages[p..], n);
    KeptAll(Rows(pages[p..]), n);
    KeptConcat(Rows(pages[..p]), Rows(pages[p..]), n);
  }

  lemma CleanRest(pages: seq<ListPage>, n: nat, p: nat, out: seq<ListPage>, gone: seq<nat>)
    requires p < |pages| && Cleaned(pages, n, p, 0, out, gone)
    ensures out[p..] == pages[p..] && gone == Gone(Rows(pages[..p]), n)
  {
    assert pages[p].ents[..0] == [];
    assert Marked(pages[p].ents[..0], n) + pages[p].ents[0..] == pages[p].ents;
    assert Rows(pages[..p]) + EntRows(pages[p].ents[..0], pages[p].epoch) == Rows(pages[..p]);
  }

  /** nova_background_clean_snapshot_list: free what is dead by `n` in the pages handed on.
      `ok` is false when the loop comes to take a page mark for an entry; what it does from
      there on, walking memory that was never written, is not said. */
  method CleanList(pages: seq<ListPage>, n: nat) returns (ok: bool, out: seq<ListPage>, gone: seq<nat>)
    requires Tagged(pages, n)
    ensures ok <==> Cleanly(pages, n)
    ensures SameShape(pages, out)
    ensures ok ==> Rows(out) == Kept(Rows(pages), n) && gone == Gone(Rows(pages), n)
    ensures !ok ==> exists p: nat :: Trap(pages, p) && pages[p].epoch < n && Cleaned(pages, n, p, 0, out, gone)
  {
    hide Rows, Kept, Gone, EntRows, Cleaned;
    ok, out, gone := true, pages, [];
    var p, k, last := 0, 0, |pages| - 1;
    CleanBegin(pages, n);
    while pages[p].epoch < n  // not at the tail, whose page was written for `n`
      invariant ok && p <= last && k <= |pages[p].ents| && Cleaned(pages, n, p, k, out, gone)
      invariant forall q | 0 <= q < p :: pages[q].epoch < n
      invariant forall q | 0 < q < p :: pages[q].ents != []
      invariant pages[p].epoch >= n ==> k == 0
      invariant p > 0 && pages[p].epoch < n ==> pages[p].ents != []
      decreases last - p, |pages[p].ents| - k
    {
      if k == |pages[p].ents| {
        CleanPage(pages, n, p, out, gone);
        p, k := p + 1, 0;
        if p == last && pages[p].ents == [] { break; }
        if pages[p].epoch == n { break; }
      }
      if k == |pages[p].ents| {
        assert Trap(pages, p);
        ok := false;
        CleanedShape(pages, n, p, k, out, gone);
        return;
      }
      CleanEntry(pages, n, p, k, out, gone);
      var e := out[p].ents[k];
      if !e.deleted && e.died <= n {
        gone := gone + [e.id];
        out := out[p := out[p].(ents := out[p].ents[k := e.(deleted := true)])];
      } else {
        assert out[p].ents[k := e] == out[p].ents && out[p := out[p].(ents := out[p].ents)] == out;
      }
      k := k + 1;
    }
    CleanDone(pages, n, p, out, gone);
  }

  lemma CleanedShape(pages: seq<ListPage>, n: nat, p: nat, k: nat, out: seq<ListPage>, gone: seq<nat>)
    requires p < |pages| && k <= |pages[p].ents| && Cleaned(pages, n, p, k, out, gone)
    ensures SameShape(pages, out)
  {
  }

  /** The same pages with as many entries. */
  ghost predicate SameShape(pages: seq<ListPage>, out: seq<ListPage>) {
    |out| == |pages|
        && forall q | 0 <= q < |pages| :: out[q].epoch == pages[q].epoch && |out[q].ents| == |pages[q].ents|
  }

  lemma CleanBegin(pages: seq<ListPage>, n: nat)
    requires pages != []
    ensures Cleaned(pages, n, 0, 0, pages, [])
  {
    assert Marked(pages[0].ents[..0], n) + pages[0].ents[0..] == pages[0].ents;
    assert Rows(pages[..0]) + EntRows(pages[0].ents[..0], pages[0].epoch) == [];
  }

  // ------------------------------------------------------------- the freeing loop

  /** nova_delete_snapshot_list_entries: free everything a list still retains, `ok` as above. */
  method DeleteEntries(pages: seq<ListPage>) returns (ok: bool, gone: seq<nat>)
    requires pages != []
    ensures ok <==> Walkable(pages)
    ensures ok ==> gone == Ids(Rows(pages))
    ensures !ok ==> exists p: nat :: Trap(pages, p) && gone == Ids(Rows(pages[..p]))
  {
    hide Rows, EntRows, Ids;
    ok, gone := true, [];
    var p, k, last := 0, 0, |pages| - 1;
    NonePassed(pages, 0);
    while p < last || k < |pages[p].ents|
      invariant ok && p <= last && k <= |pages[p].ents|
      invariant forall q | 0 < q <= p && q < last :: pages[q].ents != []
      invariant gone == Ids(Rows(pages[..p]) + EntRows(pages[p].ents[..k], pages[p].epoch))
      decreases last - p, |pages[p].ents| - k
    {
      if k == |pages[p].ents| {
        PassPage(pages, p);
        p, k := p + 1, 0;
        if p == last && pages[p].ents == [] { break; }
      }
      if k == |pages[p].ents| {
        assert Trap(pages, p);
        NonePassed(pages, p);
        ok := false;
        return;
      }
      var e := pages[p].ents[k];
      PassEntry(pages, p, k);
      if !e.deleted { gone := gone + [e.id]; }
      k := k + 1;
    }
    AllPassed(pages);
  }

  lemma NonePassed(pages: seq<ListPage>, p: nat)
    requires p < |pages|
    ensures Rows(pages[..p]) + EntRows(pages[p].ents[..0], pages[p].epoch) == Rows(pages[..p])
    ensures p == 0 ==> Ids(Rows(pages[..p])) == []
  {
    assert EntRows(pages[p].ents[..0], pages[p].epoch) == [];
  }

  lemma AllPassed(pages: seq<ListPage>)
    requires pages != []
    ensures var g := pages[|pages| - 1];
            Rows(pages[..|pages| - 1]) + EntRows(g.ents[..|g.ents|], g.epoch) == Rows(pages)
  {
    var g := pages[|pages| - 1];
    assert pages == pages[..|pages| - 1] + [g];
    RowsSnoc(pages[..|pages| - 1], g);
    assert g.ents[..|g.ents|] == g.ents;
  }

  lemma PassPage(pages: seq<ListPage>, p: nat)
    requires p + 1 < |pages|
    ensures Rows(pages[..p + 1]) + EntRows(pages[p + 1].ents[..0], pages[p + 1].epoch)
         == Rows(pages[..p]) + EntRows(pages[p].ents[..|pages[p].ents|], pages[p].epoch)
  {
    assert pages[..p + 1] == pages[..p] + [pages[p]];
    RowsSnoc(pages[..p], pages[p]);
    assert pages[p].ents[..|pages[p].ents|] == pages[p].ents;
  }

  lemma PassEntry(pages: seq<ListPage>, p: nat, k: nat)
    requires p < |pages| && k < |pages[p].ents|
    ensures var e, g := pages[p].ents[k], pages[p];
            Ids(Rows(pages[..p]) + EntRows(g.ents[..k + 1], g.epoch)) ==
            Ids(Rows(pages[..p]) + EntRows(g.ents[..k], g.epoch)) + (if e.deleted then [] else [e.id])
  {
    var e, g := pages[p].ents[k], pages[p];
    assert g.ents[..k + 1] == g.ents[..k] + [e];
    EntSnoc(g.ents[..k], e, g.epoch);
  }
}
