/** The byte layout of a NOVA inode log (nova/log.c, nova/nova.h): entries of different sizes
    in pages whose last 32 bytes are the page tail, a mark where a page is left early, and the
    walk from head to tail that every scan of the log uses. */
module NovaPagedLog {
  import opened NovaLogPages
  import opened NovaThoroughGc
  import opened FreshIds

  /** What starts at a byte offset of a page; other offsets hold arbitrary bytes. */
  datatype Cell = Ent(e: Entry) | NextMark
  datatype LogPage = LogPage(cells: map<nat, Cell>, next: nat)
  type Mem = map<nat, LogPage>

  /** The entries lie one behind the other from the start of the page. */
  ghost predicate Laid(cells: map<nat, Cell>, es: seq<Entry>) {
    forall k | 0 <= k < |es| :: Bytes(es[..k]) in cells && cells[Bytes(es[..k])] == Ent(es[k])
  }

  /** A page that was left: less than 32 bytes remain, or a mark follows the last entry. */
  ghost predicate Left(pg: LogPage, es: seq<Entry>) {
    var end := Bytes(es);
    end + 32 > LOG_BLOCK_TAIL || (end in pg.cells && pg.cells[end] == NextMark)
  }

  /** The log: page `i` of the chain holds the entries `per[i]`. */
  ghost predicate LogOK(m: Mem, chain: seq<nat>, rest: seq<nat>, per: seq<seq<Entry>>) {
    Turned(m, chain, rest, per) && (|per| > 1 ==> per[|per| - 1] != [])
  }

  function Flat(per: seq<seq<Entry>>): seq<Entry> {
    if per == [] then [] else Flat(per[..|per| - 1]) + per[|per| - 1]
  }

  lemma FlatSnoc(per: seq<seq<Entry>>, es: seq<Entry>)
    ensures Flat(per + [es]) == Flat(per) + es
  {
    assert (per + [es])[..|per|] == per;
  }

  lemma {:induction false} BytesGrow(es: seq<Entry>, k: nat, n: nat)
    requires k <= n <= |es|
    ensures Bytes(es[..n]) >= Bytes(es[..k]) + 40 * (n - k)
  {
    if k < n {
      BytesGrow(es, k, n - 1);
      assert es[..n] == es[..n - 1] + [es[n - 1]];
      BytesSnoc(es[..n - 1], es[n - 1]);
    }
  }

  // ------------------------------------------------------------------ the walk

  /** goto_next_page. */
  predicate GotoNext(pg: LogPage, off: nat) {
    off + 32 > LOG_BLOCK_TAIL || (off in pg.cells && pg.cells[off] == NextMark)
  }

  lemma StaysOn(pg: LogPage, es: seq<Entry>, k: nat)
    requires Laid(pg.cells, es) && Bytes(es) <= LOG_BLOCK_TAIL && k < |es|
    ensures !GotoNext(pg, Bytes(es[..k])) && pg.cells[Bytes(es[..k])] == Ent(es[k])
    ensures Bytes(es[..k + 1]) == Bytes(es[..k]) + Size(es[k])
  {
    BytesGrow(es, k, |es|);
    assert es[..|es|] == es;
    assert es[..k + 1] == es[..k] + [es[k]];
    BytesSnoc(es[..k], es[k]);
  }

  class PagedLog {
    var pages: Mem
    var head: nat
    var tailPage: nat
    var tailOff: nat
    ghost var chain: seq<nat>
    ghost var rest: seq<nat>             // pages linked behind the tail page
    ghost var per: seq<seq<Entry>>

    ghost predicate Valid()
      reads this
    {
      && LogOK(pages, chain, rest, per) && head == chain[0]
      && tailPage == chain[|chain| - 1] && tailOff == Bytes(per[|per| - 1])
    }

    ghost function Contents(): seq<Entry>
      reads this
    {
      Flat(per)
    }

    /** Walking from the head to the tail yields what was appended, in order. */
    method Walk() returns (out: seq<Entry>)
      requires Valid()
      ensures out == Contents()
    {
      hide LogOK, Flat, Bytes, Laid;
      var page, off := head, 0;
      ghost var i, k := 0, 0;
      out := [];
      LogFacts(pages, chain, rest, per);
      WalkStart(per);
      while page != tailPage || off != tailOff
        invariant 0 <= i < |per| == |chain| && 0 <= k <= |per[i]| && page == chain[i] && page in pages
        invariant off == Bytes(per[i][..k])
        invariant out == Flat(per[..i]) + per[i][..k]
        decreases |per| - i, |per[i]| - k
      {
        Unfinished(pages, chain, rest, per, i, k);
        if GotoNext(pages[page], off) {
          NextPage(pages, chain, rest, per, i, k);
          page, off := pages[page].next, 0;
          i, k := i + 1, 0;
        }
        OnEntry(pages, chain, rest, per, i, k);
        var e := pages[page].cells[off].e;
        assert per[i][..k + 1] == per[i][..k] + [per[i][k]];
        out := out + [e];
        off := off + Size(e);
        k := k + 1;
      }
      AtEnd(pages, chain, rest, per, i, k);
    }

    /** nova_get_append_head and the store of the entry: on the tail page if the entry ends
        before the page tail, else on the next page, which is allocated when there is none. */
    method Append(e: Entry)
      requires Valid()
      modifies this
      ensures Valid() && Contents() == old(Contents()) + [e] && head == old(head)
    {
      hide Turned, Flat, Bytes;
      LogFacts(pages, chain, rest, per);
      NothingLaid(map[]);
      var size := Size(e);
      if tailOff + size > LOG_BLOCK_TAIL {
        if pages[tailPage].next == 0 { Extend(); }
        TurnPage(size);
      }
      StoreEntry(e);
    }

    /** One more page behind the last. */
    method Extend()
      requires Valid() && tailPage in pages && pages[tailPage].next == 0
      modifies this`pages, this`rest
      ensures Valid() && tailPage in pages && pages[tailPage].next != 0
    {
      hide Bytes, Laid, Flat;
      FreshExists(pages.Keys + {0});
      var x :| x !in pages.Keys + {0};
      NoRest(pages, chain, rest, per);
      ExtendOK(pages, chain, per, x);
      pages := pages[tailPage := pages[tailPage].(next := x)][x := LogPage(map[], 0)];
      rest := [x];
    }

    /** The mark at the end of the page, then on to the next page. */
    method TurnPage(size: nat)
      requires Valid() && tailPage in pages && pages[tailPage].next != 0 && tailOff + size > LOG_BLOCK_TAIL
      requires 32 <= size <= 64
      modifies this`pages, this`tailPage, this`tailOff, this`chain, this`rest, this`per
      ensures |per| > 1 && per[|per| - 1] == [] && Flat(per) == old(Flat(per))
      ensures Turned(pages, chain, rest, per) && head == chain[0] && tailPage == chain[|chain| - 1] && tailOff == 0
    {
      hide Bytes, Laid, Flat, Left;
      TurnOK(pages, chain, rest, per, tailOff);
      if tailOff < LOG_BLOCK_TAIL {
        pages := pages[tailPage := pages[tailPage].(cells := pages[tailPage].cells[tailOff := NextMark])];
      }
      tailPage, tailOff := pages[tailPage].next, 0;
      chain, rest := chain + [rest[0]], rest[1..];
      FlatSnoc(per, []);
      assert Flat(per) + [] == Flat(per);
      per := per + [[]];
    }

    method StoreEntry(e: Entry)
      requires Turned(pages, chain, rest, per) && head == chain[0] && tailPage == chain[|chain| - 1]
      requires tailOff == Bytes(per[|per| - 1])
      requires tailOff + Size(e) <= LOG_BLOCK_TAIL
      modifies this`pages, this`tailOff, this`per
      ensures Valid() && Flat(per) == old(Flat(per)) + [e]
    {
      hide Bytes, Laid, Flat, Left;
      StoreOK(pages, chain, rest, per, e);
      StoreFlat(per, e);
      pages := pages[tailPage := pages[tailPage].(cells := pages[tailPage].cells[tailOff := Ent(e)])];
      per := per[..|per| - 1] + [per[|per| - 1] + [e]];
      tailOff := tailOff + Size(e);
    }
  }

  /** A log whose tail page may still be empty. */
  ghost predicate Turned(m: Mem, chain: seq<nat>, rest: seq<nat>, per: seq<seq<Entry>>) {
    && |chain| == |per| > 0
    && Linked(m, chain + rest)
    && (forall i | 0 <= i < |chain| :: chain[i] in m)
    && (forall i | 0 <= i < |per| :: Laid(m[chain[i]].cells, per[i]) && Bytes(per[i]) <= LOG_BLOCK_TAIL)
    && (forall i | 0 <= i < |per| - 1 :: Left(m[chain[i]], per[i]))
    && (forall i | 0 <= i < |per| - 1 :: per[i] != [])
  }

  ghost predicate Linked(m: Mem, c: seq<nat>) {
    && c != [] && (forall i | 0 <= i < |c| :: c[i] in m && c[i] != 0)
    && (forall i, j | 0 <= i < j < |c| :: c[i] != c[j])
    && (forall i | 0 <= i < |c| - 1 :: m[c[i]].next == c[i + 1])
    && m[c[|c| - 1]].next == 0
  }


  lemma WalkStart(per: seq<seq<Entry>>)
    requires per != []
    ensures Flat(per[..0]) + per[0][..0] == [] && Bytes(per[0][..0]) == 0
  {
  }

  lemma LogFacts(m: Mem, chain: seq<nat>, rest: seq<nat>, per: seq<seq<Entry>>)
    requires LogOK(m, chain, rest, per)
    ensures |chain| == |per| > 0 && forall i | 0 <= i < |chain| :: chain[i] in m
  {
    forall i | 0 <= i < |chain| ensures chain[i] in m { assert (chain + rest)[i] == chain[i]; }
  }

  /** Before the tail, either entries of the page remain or there is a next page. */
  lemma Unfinished(m: Mem, chain: seq<nat>, rest: seq<nat>, per: seq<seq<Entry>>, i: nat, k: nat)
    requires LogOK(m, chain, rest, per) && i < |per| && k <= |per[i]|
    requires chain[i] != chain[|chain| - 1] || Bytes(per[i][..k]) != Bytes(per[|per| - 1])
    ensures chain[i] in m && (k < |per[i]| || i < |per| - 1)
    ensures k == |per[i]| ==> GotoNext(m[chain[i]], Bytes(per[i][..k]))
    ensures k < |per[i]| ==> !GotoNext(m[chain[i]], Bytes(per[i][..k]))
  {
    hide Bytes, Flat;
    assert per[i][..|per[i]|] == per[i];
    assert (chain + rest)[i] == chain[i];
    if k < |per[i]| { StaysOn(m[chain[i]], per[i], k); }
  }

  lemma NextPage(m: Mem, chain: seq<nat>, rest: seq<nat>, per: seq<seq<Entry>>, i: nat, k: nat)
    requires LogOK(m, chain, rest, per) && i < |per| - 1 && k == |per[i]|
    ensures chain[i] in m && m[chain[i]].next == chain[i + 1] && chain[i + 1] in m && per[i + 1] != []
    ensures Bytes(per[i + 1][..0]) == 0
    ensures Flat(per[..i + 1]) + per[i + 1][..0] == Flat(per[..i]) + per[i][..k]
  {
    hide Laid;
    assert (chain + rest)[i] == chain[i] && (chain + rest)[i + 1] == chain[i + 1];
    assert per[..i + 1] == per[..i] + [per[i]];
    FlatSnoc(per[..i], per[i]);
    assert per[i][..k] == per[i];
  }

  lemma OnEntry(m: Mem, chain: seq<nat>, rest: seq<nat>, per: seq<seq<Entry>>, i: nat, k: nat)
    requires LogOK(m, chain, rest, per) && i < |per| && k < |per[i]|
    ensures chain[i] in m && Bytes(per[i][..k]) in m[chain[i]].cells
    ensures m[chain[i]].cells[Bytes(per[i][..k])] == Ent(per[i][k])
    ensures Bytes(per[i][..k + 1]) == Bytes(per[i][..k]) + Size(per[i][k])
  {
    hide Bytes, Flat;
    assert (chain + rest)[i] == chain[i];
    StaysOn(m[chain[i]], per[i], k);
  }

  lemma AtEnd(m: Mem, chain: seq<nat>, rest: seq<nat>, per: seq<seq<Entry>>, i: nat, k: nat)
    requires LogOK(m, chain, rest, per) && i < |per| && k <= |per[i]|
    requires chain[i] == chain[|chain| - 1] && Bytes(per[i][..k]) == Bytes(per[|per| - 1])
    ensures Flat(per[..i]) + per[i][..k] == Flat(per)
  {
    var n := |per| - 1;
    assert (chain + rest)[i] == chain[i] && (chain + rest)[n] == chain[n];
    assert i == n;
    assert per[i][..|per[i]|] == per[i];
    if k < |per[i]| { BytesGrow(per[i], k, |per[i]|); }
  }

  // -------------------------------------------------------------- how it changes

  lemma NoRest(m: Mem, chain: seq<nat>, rest: seq<nat>, per: seq<seq<Entry>>)
    requires LogOK(m, chain, rest, per)
    ensures chain != [] && chain[|chain| - 1] in m
    ensures m[chain[|chain| - 1]].next == if rest == [] then 0 else rest[0]
    ensures rest != [] ==> rest[0] != 0
  {
    hide Bytes, Laid, Left;
    var c := chain + rest;
    assert c[|chain| - 1] == chain[|chain| - 1];
    if rest != [] { assert c[|chain|] == rest[0]; }
  }

  lemma ExtendOK(m: Mem, chain: seq<nat>, per: seq<seq<Entry>>, x: nat)
    requires LogOK(m, chain, [], per) && x !in m && x != 0 && chain[|chain| - 1] in m
    ensures var last := chain[|chain| - 1];
            LogOK(m[last := m[last].(next := x)][x := LogPage(map[], 0)], chain, [x], per)
  {
    hide Bytes, Laid, Left;
    var last := chain[|chain| - 1];
    var m' := m[last := m[last].(next := x)][x := LogPage(map[], 0)];
    assert chain + [] == chain;
    ExtendLinked(m, chain, x);
    forall i | 0 <= i < |chain| ensures chain[i] in m' && m'[chain[i]].cells == m[chain[i]].cells {}
    forall i | 0 <= i < |per| - 1 ensures Left(m'[chain[i]], per[i]) { SameLeft(m[chain[i]], m'[chain[i]], per[i]); }
  }

  lemma SameLeft(pg: LogPage, pg': LogPage, es: seq<Entry>)
    requires Left(pg, es) && pg'.cells == pg.cells
    ensures Left(pg', es)
  {
  }

  lemma ExtendLinked(m: Mem, c: seq<nat>, x: nat)
    requires Linked(m, c) && x !in m && x != 0
    ensures var last := c[|c| - 1]; Linked(m[last := m[last].(next := x)][x := LogPage(map[], 0)], c + [x])
  {
  }

  lemma TurnOK(m: Mem, chain: seq<nat>, rest: seq<nat>, per: seq<seq<Entry>>, off: nat)
    requires LogOK(m, chain, rest, per) && chain[|chain| - 1] in m && m[chain[|chain| - 1]].next != 0
    requires off == Bytes(per[|per| - 1]) && off + 64 > LOG_BLOCK_TAIL
    ensures rest != [] && m[chain[|chain| - 1]].next == rest[0]
    ensures var last := chain[|chain| - 1];
            var m' := if off < LOG_BLOCK_TAIL then m[last := m[last].(cells := m[last].cells[off := NextMark])] else m;
            Turned(m', chain + [rest[0]], rest[1..], per + [[]])
  {
    hide Laid;
    NoRest(m, chain, rest, per);
    var n := |per| - 1;
    var last := chain[n];
    var m' := if off < LOG_BLOCK_TAIL then m[last := m[last].(cells := m[last].cells[off := NextMark])] else m;
    var chain', per' := chain + [rest[0]], per + [[]];
    assert chain' + rest[1..] == chain + rest;
    LinkedCells(m, m', chain + rest);
    assert (chain + rest)[|chain|] == rest[0];
    assert (chain + rest)[n] == chain[n];
    forall i | 0 <= i < |per'|
      ensures chain'[i] in m' && Laid(m'[chain'[i]].cells, per'[i]) && Bytes(per'[i]) <= LOG_BLOCK_TAIL
    {
      if i < n {
        assert (chain + rest)[i] == chain[i];
      } else if i == n {
        MarkLaid(m[last].cells, per[n], off, NextMark);
      } else {
        NothingLaid(m'[chain'[i]].cells);
      }
    }
    forall i | 0 <= i < |per'| - 1 ensures Left(m'[chain'[i]], per'[i]) {
      if i < n {
        assert (chain + rest)[i] == chain[i];
        assert Left(m[chain[i]], per[i]);
      }
    }
    assert per[n] != [] by { assert off > 0; }
  }

  lemma NothingLaid(cells: map<nat, Cell>)
    ensures Laid(cells, []) && Bytes([]) == 0
  {
  }

  lemma LinkedCells(m: Mem, m': Mem, c: seq<nat>)
    requires Linked(m, c) && m'.Keys == m.Keys && forall x | x in m :: m'[x].next == m[x].next
    ensures Linked(m', c)
  {
  }

  /** Writing behind the entries disturbs none of them. */
  lemma MarkLaid(cells: map<nat, Cell>, es: seq<Entry>, off: nat, c: Cell)
    requires Laid(cells, es) && off == Bytes(es)
    ensures Laid(cells[off := c], es)
  {
    forall k | 0 <= k < |es|
      ensures Bytes(es[..k]) in cells && Bytes(es[..k]) != off && cells[Bytes(es[..k])] == Ent(es[k])
    {
      BytesGrow(es, k, |es|);
      assert es[..|es|] == es;
    }
  }

  lemma StoreLaid(cells: map<nat, Cell>, es: seq<Entry>, e: Entry)
    requires Laid(cells, es)
    ensures Laid(cells[Bytes(es) := Ent(e)], es + [e]) && Bytes(es + [e]) == Bytes(es) + Size(e)
  {
    var cells', es' := cells[Bytes(es) := Ent(e)], es + [e];
    MarkLaid(cells, es, Bytes(es), Ent(e));
    BytesSnoc(es, e);
    forall k | 0 <= k < |es'| ensures Bytes(es'[..k]) in cells' && cells'[Bytes(es'[..k])] == Ent(es'[k]) {
      assert es'[..k] == es[..k];
      if k < |es| { assert Laid(cells', es); } else { assert es[..k] == es; }
    }
  }

  lemma StoreOK(m: Mem, chain: seq<nat>, rest: seq<nat>, per: seq<seq<Entry>>, e: Entry)
    requires Turned(m, chain, rest, per) && Bytes(per[|per| - 1]) + Size(e) <= LOG_BLOCK_TAIL
    ensures var n := |per| - 1;
            var last, off := chain[n], Bytes(per[n]);
            && last in m && Bytes(per[n] + [e]) == off + Size(e)
            && LogOK(m[last := m[last].(cells := m[last].cells[off := Ent(e)])], chain, rest, per[..n] + [per[n] + [e]])
  {
    hide Laid, Bytes;
    var n := |per| - 1;
    var last, off := chain[n], Bytes(per[n]);
    StoreLaid(m[last].cells, per[n], e);
    var m', per' := m[last := m[last].(cells := m[last].cells[off := Ent(e)])], per[..n] + [per[n] + [e]];
    LinkedCells(m, m', chain + rest);
    forall i | 0 <= i < n ensures m'[chain[i]] == m[chain[i]] {
      assert (chain + rest)[i] == chain[i] && (chain + rest)[n] == chain[n];
    }
  }

  lemma StoreFlat(per: seq<seq<Entry>>, e: Entry)
    requires per != []
    ensures Flat(per[..|per| - 1] + [per[|per| - 1] + [e]]) == Flat(per) + [e]
  {
    FlatSnoc(per[..|per| - 1], per[|per| - 1] + [e]);
  }
}
