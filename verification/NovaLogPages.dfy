/** The log of a NOVA inode as a chain of pages (nova/log.c, nova/gc.c): what its entries
    say about the file, which of them garbage collection may drop, and how pages are
    linked and unlinked. */
module NovaLogPages {
  import opened NovaFileIndex

  /** A log entry and, for entries other than writes, its invalid flag. */
  datatype Entry = Entry(e: Ent, stale: bool)

  /** curr_log_entry_invalid. */
  predicate Drop(g: Entry) { if g.e.Write? then Dead(g.e) else g.stale }

  /** sizeof the entry in bytes; other entries are link changes. */
  function Size(g: Entry): nat {
    match g.e
    case Write(_, _, _, _) => 64
    case SetAttr(_) => 56
    case Other => 40
  }

  // ------------------------------------------------------- what a log says

  /** The block that replaying `c` gives page `p`, 0 for none. */
  function BlockOf(c: seq<Entry>, p: nat): int {
    if c == [] then 0
    else
      var g := c[|c| - 1];
      if Holds(g.e, p) && !Dead(g.e) then g.e.block + (p - g.e.pgoff)
      else if g.e.SetAttr? && g.e.first <= p then 0
      else BlockOf(c[..|c| - 1], p)
  }

  function Plain(c: seq<Entry>): (log: seq<Ent>)
    ensures |log| == |c| && forall i | 0 <= i < |c| :: log[i] == c[i].e
  {
    seq(|c|, i requires 0 <= i < |c| => c[i].e)
  }

  lemma {:induction false} BlockOfIsMapped(c: seq<Entry>, p: nat)
    ensures BlockOf(c, p) == Mapped(Plain(c), p)
  {
    if c != [] {
      var n := |c| - 1;
      BlockOfIsMapped(c[..n], p);
      assert Plain(c)[..n] == Plain(c[..n]);
    }
  }

  /** Invalidated set-attribute entries are never set-size entries: when one was logged
      no page lay past the size it records. */
  ghost predicate StaleOK(c: seq<Entry>) {
    forall j, p: nat | 0 <= j < |c| && c[j].stale && c[j].e.SetAttr? && c[j].e.first <= p :: BlockOf(c[..j], p) == 0
  }

  /** The entries that are not dropped. */
  function Keep(c: seq<Entry>): (k: seq<Entry>)
    ensures forall g | g in k :: !Drop(g)
  {
    if c == [] then [] else Keep(c[..|c| - 1]) + (if Drop(c[|c| - 1]) then [] else [c[|c| - 1]])
  }

  /** `c'` is `c` without some entries that GC may drop. */
  ghost predicate Thin(c': seq<Entry>, c: seq<Entry>)
    decreases |c|
  {
    if c == [] then c' == []
    else
      var n := |c| - 1;
      (c' != [] && c'[|c'| - 1] == c[n] && Thin(c'[..|c'| - 1], c[..n])) || (Drop(c[n]) && Thin(c', c[..n]))
  }

  lemma StalePrefix(c: seq<Entry>, n: nat)
    requires StaleOK(c) && n <= |c|
    ensures StaleOK(c[..n])
  {
    forall j, p: nat | 0 <= j < n && c[..n][j].stale && c[..n][j].e.SetAttr? && c[..n][j].e.first <= p
      ensures BlockOf(c[..n][..j], p) == 0
    {
      assert c[..n][..j] == c[..j];
    }
  }

  lemma StaleSnoc(c: seq<Entry>, g: Entry)
    requires StaleOK(c)
    requires g.stale && g.e.SetAttr? ==> forall p: nat | g.e.first <= p :: BlockOf(c, p) == 0
    ensures StaleOK(c + [g])
  {
    var d := c + [g];
    forall j, p: nat | 0 <= j < |d| && d[j].stale && d[j].e.SetAttr? && d[j].e.first <= p
      ensures BlockOf(d[..j], p) == 0
    {
      assert d[..j] == c[..j];
      if j == |c| { assert c[..j] == c; }
    }
  }

  /** Dropping entries that GC may drop changes the block of no page. */
  lemma {:induction false} ThinSame(c': seq<Entry>, c: seq<Entry>)
    requires StaleOK(c) && Thin(c', c)
    ensures StaleOK(c') && forall p: nat :: BlockOf(c', p) == BlockOf(c, p)
    decreases |c|
  {
    if c != [] {
      var n := |c| - 1;
      StalePrefix(c, n);
      if c' != [] && c'[|c'| - 1] == c[n] && Thin(c'[..|c'| - 1], c[..n]) {
        ThinSame(c'[..|c'| - 1], c[..n]);
        assert c' == c'[..|c'| - 1] + [c[n]];
        assert forall p: nat :: BlockOf(c[..n], p) == BlockOf(c'[..|c'| - 1], p);
        StaleSnoc(c'[..|c'| - 1], c[n]);
      } else {
        ThinSame(c', c[..n]);
      }
    }
  }

  lemma {:induction false} ThinSelf(c: seq<Entry>)
    ensures Thin(c, c)
  {
    if c != [] { ThinSelf(c[..|c| - 1]); }
  }

  lemma {:induction false} ThinConcat(a': seq<Entry>, a: seq<Entry>, b': seq<Entry>, b: seq<Entry>)
    requires Thin(a', a) && Thin(b', b)
    ensures Thin(a' + b', a + b)
    decreases |b|
  {
    if b == [] {
      assert a' + b' == a' && a + b == a;
    } else {
      var n := |b| - 1;
      assert (a + b)[..|a + b| - 1] == a + b[..n] && (a + b)[|a + b| - 1] == b[n];
      if b' != [] && b'[|b'| - 1] == b[n] && Thin(b'[..|b'| - 1], b[..n]) {
        ThinConcat(a', a, b'[..|b'| - 1], b[..n]);
        assert (a' + b')[..|a' + b'| - 1] == a' + b'[..|b'| - 1];
      } else {
        ThinConcat(a', a, b', b[..n]);
      }
    }
  }

  lemma {:induction false} ThinKeep(c: seq<Entry>)
    ensures Thin(Keep(c), c)
  {
    if c != [] {
      ThinKeep(c[..|c| - 1]);
      if !Drop(c[|c| - 1]) {
        assert Keep(c)[..|Keep(c)| - 1] == Keep(c[..|c| - 1]);
      } else {
        assert Keep(c) == Keep(c[..|c| - 1]);
      }
    }
  }

  lemma {:induction false} KeepConcat(a: seq<Entry>, b: seq<Entry>)
    ensures Keep(a + b) == Keep(a) + Keep(b)
    decreases |b|
  {
    if b == [] {
      assert a + b == a;
    } else {
      KeepConcat(a, b[..|b| - 1]);
      assert (a + b)[..|a + b| - 1] == a + b[..|b| - 1];
    }
  }

  lemma {:induction false} KeepNone(d: seq<Entry>)
    requires forall g | g in d :: Drop(g)
    ensures Keep(d) == [] && Thin([], d)
  {
    if d != [] {
      assert d[|d| - 1] in d;
      KeepNone(d[..|d| - 1]);
    }
  }

  // ------------------------------------------------------------- log pages

  const LOG_BLOCK_TAIL: nat := 4064

  /** A log page; `num` and `inv` are its entry counters, `next` 0 at the end. */
  datatype Page = Page(ents: seq<Entry>, next: nat, num: nat, inv: nat)

  type Heap = map<nat, Page>

  /** `chain` is a list of distinct pages, each linked to the next. */
  ghost predicate IsChain(h: Heap, chain: seq<nat>) {
    && In(h, chain) && 0 !in chain
    && (forall i, j | 0 <= i < j < |chain| :: chain[i] != chain[j])
    && (forall i | 0 <= i < |chain| - 1 :: h[chain[i]].next == chain[i + 1])
  }

  predicate In(h: Heap, c: seq<nat>) { forall x | x in c :: x in h }

  function Content(h: Heap, chain: seq<nat>): seq<Entry>
    requires In(h, chain)
  {
    if chain == [] then [] else h[chain[0]].ents + Content(h, chain[1..])
  }

  function Drops(c: seq<Entry>): nat {
    if c == [] then 0 else Drops(c[..|c| - 1]) + if Drop(c[|c| - 1]) then 1 else 0
  }

  ghost predicate CountersOK(h: Heap, chain: seq<nat>)
    requires In(h, chain)
  {
    forall x | x in chain :: h[x].num == |h[x].ents| && h[x].inv == Drops(h[x].ents)
  }

  lemma {:induction false} DropsAll(c: seq<Entry>)
    ensures Drops(c) <= |c|
    ensures Drops(c) == |c| <==> forall g | g in c :: Drop(g)
  {
    if c != [] {
      var n := |c| - 1;
      DropsAll(c[..n]);
      assert forall g :: g in c <==> g in c[..n] || g == c[n];
    }
  }

  lemma {:induction false} ContentConcat(h: Heap, a: seq<nat>, b: seq<nat>)
    requires In(h, a + b)
    ensures In(h, a) && In(h, b) && Content(h, a + b) == Content(h, a) + Content(h, b)
    decreases |a|
  {
    assert forall x :: x in a + b <==> x in a || x in b;
    if a == [] {
      assert a + b == b;
    } else {
      assert (a + b)[1..] == a[1..] + b;
      ContentConcat(h, a[1..], b);
    }
  }

  lemma ContentSnoc(h: Heap, c: seq<nat>, x: nat)
    requires In(h, c) && x in h
    ensures In(h, c + [x]) && Content(h, c + [x]) == Content(h, c) + h[x].ents
  {
    ContentConcat(h, c, [x]);
    assert [x][1..] == [];
  }

  lemma {:induction false} ContentSame(h: Heap, h': Heap, chain: seq<nat>)
    requires In(h, chain) && In(h', chain) && forall x | x in chain :: h'[x].ents == h[x].ents
    ensures Content(h', chain) == Content(h, chain)
  {
    if chain != [] { ContentSame(h, h', chain[1..]); }
  }

  // ---------------------------------------------------------- chain surgery

  lemma ChainParts(h: Heap, a: seq<nat>, b: seq<nat>)
    requires IsChain(h, a + b)
    ensures IsChain(h, a) && IsChain(h, b)
    ensures forall x | x in a :: x !in b
  {
    var c := a + b;
    assert forall i | 0 <= i < |a| :: c[i] == a[i];
    assert forall i | 0 <= i < |b| :: c[|a| + i] == b[i];
    forall i | 0 <= i < |b| - 1 ensures h[b[i]].next == b[i + 1] {
      assert c[|a| + i] == b[i] && c[|a| + i + 1] == b[i + 1];
    }
  }

  /** Changing other pages, or where the last page of the chain points, or freeing a
      page that is not in the chain, leaves the chain. */
  lemma ChainFrame(h: Heap, h': Heap, c: seq<nat>)
    requires IsChain(h, c)
    requires In(h', c)
    requires forall i | 0 <= i < |c| - 1 :: h'[c[i]].next == h[c[i]].next
    ensures IsChain(h', c)
  {
  }

  /** free_curr_page: linking past page `x` takes it out of the chain. */
  lemma Unlink(h: Heap, a: seq<nat>, x: nat, b: seq<nat>)
    requires IsChain(h, a + [x] + b) && a != []
    ensures var l := a[|a| - 1];
            l in h && x in h && IsChain(h[l := h[l].(next := h[x].next)], a + b) && x !in a + b
  {
    var c, d := a + [x] + b, a + b;
    var l := a[|a| - 1];
    assert c[|a| - 1] == l && c[|a|] == x;
    var h' := h[l := h[l].(next := h[x].next)];
    forall i | 0 <= i < |d| ensures d[i] in h' && d[i] != 0 && d[i] != x && d[i] == c[if i < |a| then i else i + 1] {
      var k := if i < |a| then i else i + 1;
      assert c[k] == d[i];
    }
    forall i | 0 <= i < |d| - 1 ensures h'[d[i]].next == d[i + 1] {
      if i == |a| - 1 { assert c[|a|] == x && c[|a| + 1] == d[i + 1]; }
    }
  }

  /** Linking two chains. */
  lemma LinkChains(h: Heap, a: seq<nat>, b: seq<nat>)
    requires IsChain(h, a) && IsChain(h, b) && a != [] && b != [] && h[a[|a| - 1]].next == b[0]
    requires forall x | x in a :: x !in b
    ensures IsChain(h, a + b)
  {
    var c := a + b;
    forall i | 0 <= i < |c| - 1 ensures h[c[i]].next == c[i + 1] {}
    forall i, j | 0 <= i < j < |c| ensures c[i] != c[j] {
      if i < |a| <= j { assert c[i] in a && c[j] in b; }
    }
  }

  /** Where an entry lies. */
  datatype Addr = Addr(page: nat, idx: nat)

  ghost predicate ValidAddr(h: Heap, chain: seq<nat>, a: Addr) {
    a.page in chain && a.page in h && a.idx < |h[a.page].ents|
  }

  /** The tree points at the entry whose block replay gives the page. */
  ghost predicate TreeOK(h: Heap, chain: seq<nat>, tree: map<nat, Addr>)
    requires In(h, chain)
  {
    forall p: nat ::
      if p in tree then
        && ValidAddr(h, chain, tree[p])
        && var g := h[tree[p].page].ents[tree[p].idx];
           Holds(g.e, p) && !Dead(g.e) && BlockOf(Content(h, chain), p) == g.e.block + (p - g.e.pgoff)
      else BlockOf(Content(h, chain), p) == 0
  }

  /** A page all of whose entries are invalid, by its counters. */
  predicate PageInvalid(pg: Page) { pg.inv == pg.num }

  /** The pages of `c` that are not invalid. */
  function LivePages(h: Heap, c: seq<nat>): (l: seq<nat>)
    requires In(h, c)
    ensures forall x :: x in l <==> x in c && !PageInvalid(h[x])
  {
    if c == [] then []
    else LivePages(h, c[..|c| - 1]) + (if PageInvalid(h[c[|c| - 1]]) then [] else [c[|c| - 1]])
  }

  /** Pages with the entries and counters they had, links aside. */
  ghost predicate SamePages(h: Heap, h': Heap) {
    forall x | x in h' :: x in h && h'[x] == h[x].(next := h'[x].next)
  }

  /** A log: the pages `chain` from head to tail, then the pages `rest`. */
  ghost predicate IsLog(h: Heap, head: nat, tailPage: nat, chain: seq<nat>, rest: seq<nat>) {
    && IsChain(h, chain + rest) && chain != []
    && chain[0] == head && chain[|chain| - 1] == tailPage
    && h[(chain + rest)[|chain + rest| - 1]].next == 0
    && IsChain(h, chain) && CountersOK(h, chain)
  }

  /** Pages linked to each other, outside the log. */
  ghost predicate Spare(h: Heap, log: seq<nat>, added: seq<nat>) {
    && IsChain(h, added) && (forall x | x in added :: x !in log)
    && (added != [] ==> h[added[|added| - 1]].next == 0)
  }

  lemma LogParts(h: Heap, a: seq<nat>, b: seq<nat>)
    requires IsChain(h, a + b) && a != []
    ensures IsChain(h, a) && In(h, a) && (a + b)[|a + b| - 1] in h
  {
    ChainParts(h, a, b);
    assert (a + b)[|a + b| - 1] in a + b;
  }

  lemma TailLast(h: Heap, chain: seq<nat>)
    requires IsChain(h, chain) && chain != []
    ensures chain[|chain| - 1] !in chain[..|chain| - 1]
  {
  }

  lemma HeadOnce(h: Heap, chain: seq<nat>, i: nat)
    requires IsChain(h, chain) && i < |chain|
    ensures In(h, chain) && (chain[i] == chain[0] <==> i == 0)
    ensures chain[i] == chain[|chain| - 1] <==> i == |chain| - 1
  {
  }

  lemma NextInChain(h: Heap, a: seq<nat>, x: nat, b: seq<nat>)
    requires IsChain(h, a + [x] + b)
    ensures x in h && x !in a && x !in b && (b != [] ==> h[x].next == b[0])
  {
    var c := a + [x] + b;
    assert c[|a|] == x;
    if b != [] { assert c[|a| + 1] == b[0]; }
    forall i | 0 <= i < |b| ensures b[i] != x { assert c[|a| + 1 + i] == b[i]; }
    forall i | 0 <= i < |a| ensures a[i] != x { assert c[i] == a[i]; }
  }

  lemma CountersKept(h0: Heap, h: Heap, chain: seq<nat>, live: seq<nat>)
    requires In(h0, chain) && CountersOK(h0, chain) && SamePages(h0, h) && In(h, live)
    requires forall x | x in live :: x in chain
    ensures CountersOK(h, live)
  {
  }
}
