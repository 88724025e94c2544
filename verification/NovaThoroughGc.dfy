/** Thorough garbage collection (nova/gc.c) step by step: the valid entries of the pages
    before the tail page are appended to fresh pages, and the tree follows them. */
module NovaThoroughGc {
  import opened NovaFileIndex
  import opened NovaLogPages

  /** Bytes the entries take. */
  function Bytes(c: seq<Entry>): nat {
    if c == [] then 0 else Bytes(c[..|c| - 1]) + Size(c[|c| - 1])
  }

  /** A page of the new log: only valid entries, counted, none past the page tail. */
  ghost predicate NewPage(pg: Page) {
    && pg.num == |pg.ents| && pg.inv == 0
    && Bytes(pg.ents) <= LOG_BLOCK_TAIL
    && forall g | g in pg.ents :: !Drop(g)
  }

  /** The heap is `h0` and the pages `c` of the new log. */
  ghost predicate NewHeap(h0: Heap, h: Heap, c: seq<nat>) {
    && (forall x | x in h0 :: x in h && h[x] == h0[x])
    && (forall x | x in c :: x in h && x !in h0 && NewPage(h[x]))
    && (forall x | x in h :: x in h0 || x in c)
  }

  ghost predicate Blank(h: Heap, c: seq<nat>) { forall x | x in c :: x in h && h[x].ents == [] }

  /** A chain that ends at its last page. */
  ghost predicate EndedChain(h: Heap, c: seq<nat>) {
    IsChain(h, c) && (c != [] ==> h[c[|c| - 1]].next == 0)
  }

  /** The new log: the pages `done` are written and the pages `left` unused. */
  ghost predicate NewLog(h0: Heap, h: Heap, done: seq<nat>, left: seq<nat>) {
    && done != [] && EndedChain(h, done + left)
    && NewHeap(h0, h, done + left) && Blank(h, left)
  }

  lemma NewLogParts(h0: Heap, h: Heap, done: seq<nat>, left: seq<nat>)
    requires NewLog(h0, h, done, left)
    ensures done != [] && In(h, done) && In(h, left) && IsChain(h, done) && IsChain(h, left)
    ensures done[|done| - 1] in h && h[done[|done| - 1]].next == (if left == [] then 0 else left[0])
  {
    ChainParts(h, done, left);
    var c := done + left;
    var n := |done| - 1;
    assert c[n] == done[n];
    if left != [] { assert c[n + 1] == left[0]; } else { assert c == done; }
  }

  // ------------------------------------------------------------- append head

  /** Moving on to the next page of the new log. */
  lemma NextNewPage(h0: Heap, h: Heap, done: seq<nat>, left: seq<nat>)
    requires NewLog(h0, h, done, left) && left != []
    ensures NewLog(h0, h, done + [left[0]], left[1..])
    ensures In(h, done) && In(h, done + [left[0]]) && Content(h, done + [left[0]]) == Content(h, done)
  {
    hide IsChain, NewPage;
    NewLogParts(h0, h, done, left);
    assert done + [left[0]] + left[1..] == done + left;
    assert left[0] in left;
    ContentSnoc(h, done, left[0]);
    assert Content(h, done) + [] == Content(h, done);
  }

  const EmptyPage := Page([], 0, 0, 0)

  /** nova_append_one_log_page: one more page behind the last. */
  function WithPage(h: Heap, last: nat, x: nat): Heap
    requires last in h
  {
    h[last := h[last].(next := x)][x := EmptyPage]
  }

  lemma ExtendHeap(h0: Heap, h: Heap, c: seq<nat>, x: nat)
    requires NewHeap(h0, h, c) && c != [] && x !in h && x != 0
    ensures NewHeap(h0, WithPage(h, c[|c| - 1], x), c + [x])
  {
    assert c[|c| - 1] in c;
  }

  lemma ExtendChain(h: Heap, c: seq<nat>, x: nat)
    requires EndedChain(h, c) && c != [] && x !in h && x != 0
    ensures EndedChain(WithPage(h, c[|c| - 1], x), c + [x])
  {
    var h' := WithPage(h, c[|c| - 1], x);
    ChainFrame(h, h', c);
    LinkChains(h', c, [x]);
  }

  lemma ExtendNewLog(h0: Heap, h: Heap, done: seq<nat>, x: nat)
    requires NewLog(h0, h, done, []) && x !in h && x != 0
    ensures done[|done| - 1] in h && NewLog(h0, WithPage(h, done[|done| - 1], x), done, [x])
    ensures In(h, done) && In(WithPage(h, done[|done| - 1], x), done)
    ensures forall y | y in done :: WithPage(h, done[|done| - 1], x)[y].ents == h[y].ents
  {
    hide EndedChain, NewHeap;
    NewLogParts(h0, h, done, []);
    assert done + [] == done;
    assert done[|done| - 1] in done;
    ExtendHeap(h0, h, done, x);
    ExtendChain(h, done, x);
  }

  // -------------------------------------------------------------- copy one entry

  function Push(h: Heap, x: nat, g: Entry): Heap
    requires x in h
  {
    h[x := h[x].(ents := h[x].ents + [g], num := h[x].num + 1)]
  }

  lemma PushContent(h: Heap, a: seq<nat>, x: nat, g: Entry)
    requires In(h, a) && x in h && x !in a
    ensures In(Push(h, x, g), a + [x]) && In(h, a + [x]) && Content(Push(h, x, g), a + [x]) == Content(h, a + [x]) + [g]
  {
    var h' := Push(h, x, g);
    ContentSame(h, h', a);
    ContentSnoc(h, a, x);
    ContentSnoc(h', a, x);
  }

  lemma BytesSnoc(c: seq<Entry>, g: Entry)
    ensures Bytes(c + [g]) == Bytes(c) + Size(g)
  {
    assert (c + [g])[..|c|] == c;
  }

  lemma PushPage(pg: Page, g: Entry)
    requires NewPage(pg) && !Drop(g) && Bytes(pg.ents) + Size(g) <= LOG_BLOCK_TAIL
    ensures NewPage(pg.(ents := pg.ents + [g], num := pg.num + 1))
  {
    hide Bytes, Drop;
    BytesSnoc(pg.ents, g);
  }

  lemma PushHeap(h0: Heap, h: Heap, c: seq<nat>, x: nat, g: Entry)
    requires NewHeap(h0, h, c) && x in c && !Drop(g) && Bytes(h[x].ents) + Size(g) <= LOG_BLOCK_TAIL
    ensures NewHeap(h0, Push(h, x, g), c)
  {
    PushPage(h[x], g);
    hide NewPage;
  }

  lemma PushNewLog(h0: Heap, h: Heap, done: seq<nat>, left: seq<nat>, g: Entry)
    requires NewLog(h0, h, done, left) && !Drop(g) && done[|done| - 1] in h
    requires Bytes(h[done[|done| - 1]].ents) + Size(g) <= LOG_BLOCK_TAIL
    ensures NewLog(h0, Push(h, done[|done| - 1], g), done, left)
    ensures In(h, done) && In(Push(h, done[|done| - 1], g), done)
    ensures Content(Push(h, done[|done| - 1], g), done) == Content(h, done) + [g]
  {
    hide Bytes, Content, NewHeap, IsChain;
    NewLogParts(h0, h, done, left);
    var n := |done| - 1;
    var x := done[n];
    var h' := Push(h, x, g);
    assert done == done[..n] + [x];
    NextInChain(h, done[..n], x, left);
    PushContent(h, done[..n], x, g);
    assert x in done + left;
    PushHeap(h0, h, done + left, x, g);
    PushChain(h, done + left, x, g);
  }

  lemma PushChain(h: Heap, c: seq<nat>, x: nat, g: Entry)
    requires EndedChain(h, c) && x in h
    ensures EndedChain(Push(h, x, g), c)
  {
    ChainFrame(h, Push(h, x, g), c);
  }

  // ------------------------------------------------------------------ the tree

  /** Every entry that has been copied and the place of its copy. */
  ghost predicate Moves(h0: Heap, h: Heap, done: seq<nat>, moved: map<Addr, Addr>) {
    forall a | a in moved ::
      && a.page in h0 && a.idx < |h0[a.page].ents|
      && ValidAddr(h, done, moved[a])
      && h[moved[a].page].ents[moved[a].idx] == h0[a.page].ents[a.idx]
  }

  /** The copying loop has passed the entry at `a`. */
  ghost predicate Passed(h0: Heap, chain: seq<nat>, i: nat, idx: nat, a: Addr)
    requires i < |chain|
  {
    && a.page in h0 && a.idx < |h0[a.page].ents|
    && (a.page in chain[..i] || (a.page == chain[i] && a.idx < idx))
  }

  /** Exactly the valid entries passed have been copied. */
  ghost predicate MovedAll(h0: Heap, chain: seq<nat>, i: nat, idx: nat, moved: map<Addr, Addr>)
    requires i < |chain|
  {
    forall a :: a in moved <==> Passed(h0, chain, i, idx, a) && !Drop(h0[a.page].ents[a.idx])
  }

  /** Exactly the slots that referred to a copied entry refer to its copy. */
  ghost predicate Repointed(tree0: map<nat, Addr>, tree: map<nat, Addr>, moved: map<Addr, Addr>) {
    && tree.Keys == tree0.Keys
    && forall p | p in tree :: tree[p] == if tree0[p] in moved then moved[tree0[p]] else tree0[p]
  }

  function Repoint(tree: map<nat, Addr>, a: Addr, b: Addr): map<nat, Addr> {
    map p | p in tree :: if tree[p] == a then b else tree[p]
  }

  lemma MovesFrame(h0: Heap, h: Heap, h': Heap, done: seq<nat>, done': seq<nat>, moved: map<Addr, Addr>)
    requires Moves(h0, h, done, moved) && In(h, done) && In(h', done')
    requires forall x | x in done :: x in done' && h[x].ents <= h'[x].ents
    ensures Moves(h0, h', done', moved)
  {
  }

  lemma RepointedMore(h0: Heap, tree0: map<nat, Addr>, tree: map<nat, Addr>, moved: map<Addr, Addr>, a: Addr, b: Addr)
    requires Repointed(tree0, tree, moved) && a !in moved && a.page in h0
    requires forall c | c in moved :: moved[c].page !in h0
    ensures Repointed(tree0, Repoint(tree, a, b), moved[a := b])
  {
  }

  // --------------------------------------------------------------- what is passed

  /** The entries before entry `idx` of page `i`. */
  function Seen(h0: Heap, chain: seq<nat>, i: nat, idx: nat): seq<Entry>
    requires In(h0, chain) && i < |chain| && idx <= |h0[chain[i]].ents|
  {
    Content(h0, chain[..i]) + h0[chain[i]].ents[..idx]
  }

  /** The state of the copying loop. */
  ghost predicate Copying(h0: Heap, h: Heap, tree0: map<nat, Addr>, tree: map<nat, Addr>, chain: seq<nat>, i: nat,
                          idx: nat,
                          done: seq<nat>, left: seq<nat>, moved: map<Addr, Addr>)
  {
    && IsChain(h0, chain) && i < |chain| && idx <= |h0[chain[i]].ents|
    && NewLog(h0, h, done, left) && In(h, done)
    && Content(h, done) == Keep(Seen(h0, chain, i, idx))
    && Moves(h0, h, done, moved) && MovedAll(h0, chain, i, idx, moved)
    && Repointed(tree0, tree, moved)
  }

  lemma CopyStart(h0: Heap, h: Heap, tree: map<nat, Addr>, chain: seq<nat>, first: nat, left: seq<nat>)
    requires IsChain(h0, chain) && chain != []
    requires NewLog(h0, h, [first], left) && first in h && h[first].ents == []
    ensures Copying(h0, h, tree, tree, chain, 0, 0, [first], left, map[])
  {
    hide NewLog, IsChain;
    HeadOnce(h0, chain, 0);
    ContentSnoc(h, [], first);
    assert [] + [first] == [first];
    assert Seen(h0, chain, 0, 0) == [];
  }

  lemma PassedPage(h0: Heap, chain: seq<nat>, i: nat, moved: map<Addr, Addr>)
    requires IsChain(h0, chain) && i < |chain| - 1 && MovedAll(h0, chain, i, |h0[chain[i]].ents|, moved)
    ensures MovedAll(h0, chain, i + 1, 0, moved)
    ensures Seen(h0, chain, i + 1, 0) == Seen(h0, chain, i, |h0[chain[i]].ents|)
  {
    assert chain[..i + 1] == chain[..i] + [chain[i]];
    forall a ensures Passed(h0, chain, i, |h0[chain[i]].ents|, a) <==> Passed(h0, chain, i + 1, 0, a) {}
    ContentSnoc(h0, chain[..i], chain[i]);
    assert h0[chain[i]].ents[..|h0[chain[i]].ents|] == h0[chain[i]].ents;
    assert h0[chain[i + 1]].ents[..0] == [];
    assert Seen(h0, chain, i + 1, 0) == Content(h0, chain[..i + 1]) + [];
  }

  lemma CopyNextPage(h0: Heap, h: Heap, tree0: map<nat, Addr>, tree: map<nat, Addr>, chain: seq<nat>, i: nat, idx: nat,
                     done: seq<nat>, left: seq<nat>, moved: map<Addr, Addr>)
    requires Copying(h0, h, tree0, tree, chain, i, idx, done, left, moved) && i < |chain| - 1
    requires idx == |h0[chain[i]].ents|
    ensures Copying(h0, h, tree0, tree, chain, i + 1, 0, done, left, moved)
    ensures chain[i] in h && h[chain[i]].next == chain[i + 1]
  {
    hide Keep, Seen, MovedAll, Moves, Repointed;
    PassedPage(h0, chain, i, moved);
    assert chain[i] in chain;
  }

  lemma PassedEntry(h0: Heap, chain: seq<nat>, i: nat, idx: nat)
    requires IsChain(h0, chain) && i < |chain| && idx < |h0[chain[i]].ents|
    ensures Seen(h0, chain, i, idx + 1) == Seen(h0, chain, i, idx) + [h0[chain[i]].ents[idx]]
    ensures forall a :: Passed(h0, chain, i, idx + 1, a) <==> Passed(h0, chain, i, idx, a) || a == Addr(chain[i], idx)
    ensures !Passed(h0, chain, i, idx, Addr(chain[i], idx))
  {
    hide Content;
    var e := h0[chain[i]].ents;
    assert e[..idx + 1] == e[..idx] + [e[idx]];
    assert chain[i] !in chain[..i];
  }

  lemma KeepSnoc(c: seq<Entry>, g: Entry)
    ensures Keep(c + [g]) == Keep(c) + (if Drop(g) then [] else [g])
  {
    assert (c + [g])[..|c|] == c;
  }

  lemma MovedSkip(h0: Heap, chain: seq<nat>, i: nat, idx: nat, moved: map<Addr, Addr>)
    requires IsChain(h0, chain) && i < |chain| && idx < |h0[chain[i]].ents| && Drop(h0[chain[i]].ents[idx])
    requires MovedAll(h0, chain, i, idx, moved)
    ensures MovedAll(h0, chain, i, idx + 1, moved)
  {
    PassedEntry(h0, chain, i, idx);
  }

  lemma CopySkip(h0: Heap, h: Heap, tree0: map<nat, Addr>, tree: map<nat, Addr>, chain: seq<nat>, i: nat, idx: nat,
                 done: seq<nat>, left: seq<nat>, moved: map<Addr, Addr>)
    requires Copying(h0, h, tree0, tree, chain, i, idx, done, left, moved)
    requires idx < |h0[chain[i]].ents| && Drop(h0[chain[i]].ents[idx])
    ensures Copying(h0, h, tree0, tree, chain, i, idx + 1, done, left, moved)
  {
    hide Keep, Seen, MovedAll, Moves, Repointed, NewLog, Content;
    MovedSkip(h0, chain, i, idx, moved);
    PassedEntry(h0, chain, i, idx);
    KeepSnoc(Seen(h0, chain, i, idx), h0[chain[i]].ents[idx]);
  }

  /** nova_get_append_head keeps the state of the loop. */
  lemma CopyNewPage(h0: Heap, h: Heap, tree0: map<nat, Addr>, tree: map<nat, Addr>, chain: seq<nat>, i: nat, idx: nat,
                    done: seq<nat>, left: seq<nat>, moved: map<Addr, Addr>)
    requires Copying(h0, h, tree0, tree, chain, i, idx, done, left, moved) && left != []
    ensures Copying(h0, h, tree0, tree, chain, i, idx, done + [left[0]], left[1..], moved)
  {
    hide Keep, Seen, MovedAll, Repointed, NewLog, Content, IsChain, Moves;
    NextNewPage(h0, h, done, left);
    MovesFrame(h0, h, h, done, done + [left[0]], moved);
  }

  lemma CopyExtend(h0: Heap, h: Heap, tree0: map<nat, Addr>, tree: map<nat, Addr>, chain: seq<nat>, i: nat, idx: nat,
                   done: seq<nat>, moved: map<Addr, Addr>, x: nat)
    requires Copying(h0, h, tree0, tree, chain, i, idx, done, [], moved) && x !in h && x != 0 && done[|done| - 1] in h
    ensures Copying(h0, WithPage(h, done[|done| - 1], x), tree0, tree, chain, i, idx, done, [x], moved)
  {
    hide Keep, Seen, MovedAll, Repointed, NewLog, Content, IsChain, Moves, WithPage;
    NewLogParts(h0, h, done, []);
    ExtendNewLog(h0, h, done, x);
    var h' := WithPage(h, done[|done| - 1], x);
    ContentSame(h, h', done);
    MovesFrame(h0, h, h', done, done, moved);
  }

  lemma MovedPush(h0: Heap, chain: seq<nat>, i: nat, idx: nat, moved: map<Addr, Addr>, b: Addr)
    requires IsChain(h0, chain) && i < |chain| && idx < |h0[chain[i]].ents| && !Drop(h0[chain[i]].ents[idx])
    requires MovedAll(h0, chain, i, idx, moved)
    ensures MovedAll(h0, chain, i, idx + 1, moved[Addr(chain[i], idx) := b]) && Addr(chain[i], idx) !in moved
  {
    PassedEntry(h0, chain, i, idx);
  }

  lemma MovesPush(h0: Heap, h: Heap, done: seq<nat>, moved: map<Addr, Addr>, a: Addr, g: Entry)
    requires done != [] && In(h, done) && Moves(h0, h, done, moved) && done[|done| - 1] in h
    requires a.page in h0 && a.idx < |h0[a.page].ents| && g == h0[a.page].ents[a.idx]
    ensures var np := done[|done| - 1];
            In(Push(h, np, g), done) && Moves(h0, Push(h, np, g), done, moved[a := Addr(np, |h[np].ents|)])
  {
    var np := done[|done| - 1];
    assert np in done;
    MovesFrame(h0, h, Push(h, np, g), done, done, moved);
  }

  lemma MovedElsewhere(h0: Heap, h: Heap, done: seq<nat>, left: seq<nat>, moved: map<Addr, Addr>)
    requires NewLog(h0, h, done, left) && Moves(h0, h, done, moved)
    ensures forall c | c in moved :: moved[c].page !in h0
  {
    forall c | c in moved ensures moved[c].page !in h0 { assert moved[c].page in done + left; }
  }

  lemma CopyPush(h0: Heap, h: Heap, tree0: map<nat, Addr>, tree: map<nat, Addr>, chain: seq<nat>, i: nat, idx: nat,
                 done: seq<nat>, left: seq<nat>, moved: map<Addr, Addr>)
    requires Copying(h0, h, tree0, tree, chain, i, idx, done, left, moved)
    requires idx < |h0[chain[i]].ents| && !Drop(h0[chain[i]].ents[idx]) && done[|done| - 1] in h
    requires Bytes(h[done[|done| - 1]].ents) + Size(h0[chain[i]].ents[idx]) <= LOG_BLOCK_TAIL
    ensures var g, np := h0[chain[i]].ents[idx], done[|done| - 1];
            var a, b := Addr(chain[i], idx), Addr(np, |h[np].ents|);
            Copying(h0, Push(h, np, g), tree0, Repoint(tree, a, b), chain, i, idx + 1, done, left, moved[a := b])
  {
    hide Keep, Seen, MovedAll, Repointed, NewLog, Content, Moves, Push, Repoint, Bytes, Size, Drop;
    NewLogParts(h0, h, done, left);
    var g, np := h0[chain[i]].ents[idx], done[|done| - 1];
    var a, b := Addr(chain[i], idx), Addr(np, |h[np].ents|);
    assert chain[i] in chain;
    PassedEntry(h0, chain, i, idx);
    KeepSnoc(Seen(h0, chain, i, idx), g);
    PushNewLog(h0, h, done, left, g);
    MovedPush(h0, chain, i, idx, moved, b);
    MovesPush(h0, h, done, moved, a, g);
    MovedElsewhere(h0, h, done, left, moved);
    RepointedMore(h0, tree0, tree, moved, a, b);
  }

  // ------------------------------------------------------------ switching logs

  function Linked(h: Heap, x: nat, next: nat): Heap
    requires x in h
  {
    h[x := h[x].(next := next)]
  }

  /** Behind the new log comes the tail page of the old one. */
  lemma LinkNewLog(h: Heap, done: seq<nat>, old': seq<nat>, last: seq<nat>)
    requires done != [] && IsChain(h, done) && last != [] && old' != [] && IsChain(h, old' + last)
    requires forall x | x in done :: x !in old' + last
    ensures var np, op := done[|done| - 1], old'[|old'| - 1];
            np in h && op in h && h[op].next == last[0] && np != op
            && var h' := Linked(Linked(h, np, last[0]), op, 0);
               IsChain(h', done + last) && EndedChain(h', old') && forall x | x in old' :: x !in done + last
  {
    var np, op := done[|done| - 1], old'[|old'| - 1];
    var c := old' + last;
    assert np in done && op in old' && c[|old'| - 1] == op && c[|old'|] == last[0];
    ChainParts(h, old', last);
    assert op in c && np !in c;
    var h' := Linked(Linked(h, np, last[0]), op, 0);
    assert forall x | x in last :: x in c && x != np && x != op;
    assert forall x | x in done :: x != op;
    assert forall x | x in old' :: x in c && x != np;
    ChainFrame(h, h', done);
    ChainFrame(h, h', last);
    ChainFrame(h, h', old');
    LinkChains(h', done, last);
  }

  lemma {:induction false} NoDrops(c: seq<Entry>)
    requires forall g | g in c :: !Drop(g)
    ensures Drops(c) == 0
  {
    if c != [] {
      assert c[|c| - 1] in c;
      NoDrops(c[..|c| - 1]);
    }
  }

  // ------------------------------------------------------ what the log still says

  /** The new log, then the tail page, is the old log without entries that GC may drop. */
  lemma ThoroughThin(h0: Heap, h: Heap, chain: seq<nat>, done: seq<nat>)
    requires chain != [] && In(h0, chain) && In(h, done + [chain[|chain| - 1]]) && In(h, done)
    requires Content(h, done) == Keep(Seen(h0, chain, |chain| - 1, 0))
    requires h[chain[|chain| - 1]].ents == h0[chain[|chain| - 1]].ents
    ensures Thin(Content(h, done + [chain[|chain| - 1]]), Content(h0, chain))
  {
    hide Thin, Content, Keep;
    var k := |chain| - 1;
    var t := h0[chain[k]].ents;
    assert chain == chain[..k] + [chain[k]];
    ContentSnoc(h0, chain[..k], chain[k]);
    ContentSnoc(h, done, chain[k]);
    assert Seen(h0, chain, k, 0) == Content(h0, chain[..k]);
    ThinKeep(Content(h0, chain[..k]));
    ThinSelf(t);
    ThinConcat(Content(h, done), Content(h0, chain[..k]), t, t);
  }

  /** The slot of a page follows its entry. */
  lemma SlotFollows(h0: Heap, h: Heap, chain: seq<nat>, done: seq<nat>, moved: map<Addr, Addr>, a: Addr)
    requires IsChain(h0, chain) && chain != [] && ValidAddr(h0, chain, a) && !Drop(h0[a.page].ents[a.idx])
    requires Moves(h0, h, done, moved) && MovedAll(h0, chain, |chain| - 1, 0, moved)
    requires In(h, done + [chain[|chain| - 1]]) && h[chain[|chain| - 1]].ents == h0[chain[|chain| - 1]].ents
    ensures var b := if a in moved then moved[a] else a;
            ValidAddr(h, done + [chain[|chain| - 1]], b) && h[b.page].ents[b.idx] == h0[a.page].ents[a.idx]
  {
    var k := |chain| - 1;
    assert chain == chain[..k] + [chain[k]];
    if a.page == chain[k] {
      TailLast(h0, chain);
      assert !Passed(h0, chain, k, 0, a);
    } else {
      assert Passed(h0, chain, k, 0, a);
    }
  }

  /** Thorough GC changes the block of no page, and every tree slot points at the live
      entry, moved or not, that gives the page its block. */
  lemma ThoroughKeepsFile(h0: Heap, h: Heap, chain: seq<nat>, done: seq<nat>, moved: map<Addr, Addr>,
                          tree0: map<nat, Addr>, tree: map<nat, Addr>)
    requires chain != [] && IsChain(h0, chain) && In(h, done + [chain[|chain| - 1]]) && In(h, done)
    requires Content(h, done) == Keep(Seen(h0, chain, |chain| - 1, 0))
    requires h[chain[|chain| - 1]].ents == h0[chain[|chain| - 1]].ents
    requires Moves(h0, h, done, moved) && MovedAll(h0, chain, |chain| - 1, 0, moved) && Repointed(tree0, tree, moved)
    requires StaleOK(Content(h0, chain)) && TreeOK(h0, chain, tree0)
    ensures StaleOK(Content(h, done + [chain[|chain| - 1]])) && TreeOK(h, done + [chain[|chain| - 1]], tree)
    ensures forall p: nat :: BlockOf(Content(h, done + [chain[|chain| - 1]]), p) == BlockOf(Content(h0, chain), p)
  {
    hide Content, Thin, StaleOK, Keep, Seen, Moves, MovedAll, IsChain, BlockOf;
    var log := done + [chain[|chain| - 1]];
    assert In(h0, chain) by { HeadOnce(h0, chain, 0); }
    ThoroughThin(h0, h, chain, done);
    ThinSame(Content(h, log), Content(h0, chain));
    forall p: nat | p in tree
      ensures ValidAddr(h, log, tree[p]) && h[tree[p].page].ents[tree[p].idx] == h0[tree0[p].page].ents[tree0[p].idx]
    {
      SlotFollows(h0, h, chain, done, moved, tree0[p]);
    }
  }
}
