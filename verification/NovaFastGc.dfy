/** The page scan of fast garbage collection (nova/gc.c): which pages it unlinks and
    frees, and why the pages left say the same about the file. */
module NovaFastGc {
  import opened NovaFileIndex
  import opened NovaLogPages

  /** The pages behind the scanned ones stay as they were. */
  lemma LastKept(h0: Heap, h1: Heap, chain: seq<nat>, rest: seq<nat>, added: seq<nat>)
    requires chain != [] && IsChain(h0, chain + rest) && Spare(h0, chain + rest, added)
    requires forall x | x in h0 && x !in h1 :: x in chain && x != chain[|chain| - 1]
    requires forall x | x in h1 && (x !in chain || x == chain[|chain| - 1]) :: x in h0 && h1[x] == h0[x]
    ensures var last := (chain + rest)[|chain + rest| - 1]; last in h0 && last in h1 && h1[last] == h0[last]
    ensures Spare(h1, chain + rest, added)
  {
    ChainParts(h0, chain, rest);
    var last := (chain + rest)[|chain + rest| - 1];
    assert last in chain + rest;
    assert rest != [] ==> last == rest[|rest| - 1] && last in rest;
    forall x | x in added ensures x in h0 && x in h1 && h1[x] == h0[x] { assert x !in chain + rest; }
    ChainFrame(h0, h1, added);
  }

  lemma FastMid(h0: Heap, h1: Heap, chain: seq<nat>, rest: seq<nat>, live: seq<nat>, added: seq<nat>, dead: bool)
    requires chain != [] && IsChain(h0, chain + rest) && Spare(h0, chain + rest, added) && In(h0, chain)
    requires (chain + rest)[|chain + rest| - 1] in h0 && h0[(chain + rest)[|chain + rest| - 1]].next == 0
    requires forall x | x in h0 && x !in h1 ::
               x in chain && x != chain[|chain| - 1] && x != chain[0] && PageInvalid(h0[x])
    requires forall x | x in h1 && (x !in chain || x == chain[|chain| - 1]) :: x in h0 && h1[x] == h0[x]
    requires live == LivePages(h0, chain[..|chain| - 1]) + [chain[|chain| - 1]]
    ensures IsChain(h1, added) && (added != [] ==> h1[added[|added| - 1]].next == 0)
    ensures forall x | x in added :: x !in (if dead then [chain[0]] else []) + live + rest
    ensures var last := (live + rest)[|live + rest| - 1];
            last == (chain + rest)[|chain + rest| - 1] && last in h1 && h1[last].next == 0
  {
    hide IsChain, LivePages;
    LastKept(h0, h1, chain, rest, added);
    forall x | x in added ensures x !in (if dead then [chain[0]] else []) + live + rest {
      assert x !in chain + rest;
      assert x !in live;
    }
  }

  lemma AttachAdded(h1: Heap, h2: Heap, pre: seq<nat>, live: seq<nat>, rest: seq<nat>, added: seq<nat>)
    requires live != [] && IsChain(h1, pre + live + rest) && IsChain(h1, added)
    requires forall x | x in added :: x !in pre + live + rest
    requires var last := (live + rest)[|live + rest| - 1];
             last in h1 && h1[last].next == 0
                 && h2 == if added == [] then h1 else h1[last := h1[last].(next := added[0])]
    requires added != [] ==> h1[added[|added| - 1]].next == 0
    ensures IsChain(h2, live + (rest + added)) && IsChain(h2, live)
    ensures h2[(live + (rest + added))[|live + (rest + added)| - 1]].next == 0
    ensures forall x | x in pre :: x !in live + (rest + added) && x in h2
    ensures SamePages(h1, h2) && h2.Keys == h1.Keys
  {
    var log := live + rest;
    assert pre + live + rest == pre + log;
    ChainParts(h1, pre, log);
    if added != [] {
      assert log[|log| - 1] in log;
      ChainFrame(h1, h2, log);
      ChainFrame(h1, h2, added);
      LinkChains(h2, log, added);
    } else {
      assert log + added == log;
    }
    assert live + (rest + added) == log + added;
    ChainParts(h2, live, rest + added);
  }

  lemma FastDone(h0: Heap, h1: Heap, h: Heap, chain: seq<nat>, live: seq<nat>, rest: seq<nat>, added: seq<nat>,
                 dead: bool)
    requires chain != [] && IsChain(h0, chain) && CountersOK(h0, chain)
    requires SamePages(h0, h1) && SamePages(h1, h)
    requires live == LivePages(h0, chain[..|chain| - 1]) + [chain[|chain| - 1]]
    requires dead <==> |chain| > 1 && PageInvalid(h0[chain[0]])
    requires forall x | x in h0 && x !in h1 ::
               x in chain && x != chain[|chain| - 1] && x != chain[0] && PageInvalid(h0[x])
    requires forall x | x in chain && x != chain[0] && x != chain[|chain| - 1] && PageInvalid(h0[x]) :: x !in h1
    requires forall x :: x in h <==> x in h1 && !(dead && x == chain[0])
    requires IsChain(h, live + (rest + added)) && IsChain(h, live)
    requires var log := live + (rest + added); log[|log| - 1] in h && h[log[|log| - 1]].next == 0
    ensures IsLog(h, live[0], chain[|chain| - 1], live, rest + added) && SamePages(h0, h)
    ensures forall x | x in h0 :: x !in h <==> x in chain && x != chain[|chain| - 1] && PageInvalid(h0[x])
  {
    hide LivePages;
    HeadOnce(h0, chain, 0);
    forall x | x in live ensures x in chain {}
    CountersKept(h0, h, chain, live);
  }

  /** The locals of the fast GC scan: the last page still linked, the first valid page,
      and whether the first page of the log is to be freed at the end. */
  datatype Scan = Scan(last: nat, found: bool, newHead: nat, dead: bool)

  function NextScan(s: Scan, curr: nat, first: bool, invalid: bool): Scan {
    if !invalid then Scan(curr, true, if s.found then s.newHead else curr, s.dead)
    else if first then Scan(curr, s.found, s.newHead, true)
    else s
  }

  /** The pages linked before the scanned one. */
  function Before(chain: seq<nat>, s: Scan, live: seq<nat>): seq<nat>
    requires chain != []
  {
    (if s.dead then [chain[0]] else []) + live
  }

  /** Exactly the invalid pages passed have been freed, the first page aside, and only
      links of pages passed have changed. */
  ghost predicate InvalidFreed(h0: Heap, h: Heap, chain: seq<nat>, i: nat)
    requires i <= |chain| && chain != []
  {
    && (forall x | x in h0 :: x !in h <==> x in chain[..i] && x != chain[0] && PageInvalid(h0[x]))
    && (forall x | x in h && x !in chain[..i] :: x in h0 && h[x] == h0[x])
  }

  ghost predicate Locals(h0: Heap, chain: seq<nat>, i: nat, s: Scan, live: seq<nat>)
    requires i < |chain| && In(h0, chain)
  {
    && live == LivePages(h0, chain[..i])
    && s.found == (live != [])
    && (s.found ==> s.newHead == live[0])
    && (s.dead <==> i > 0 && PageInvalid(h0[chain[0]]))
    && (i > 0 ==> Before(chain, s, live) != [] && s.last == Before(chain, s, live)[|Before(chain, s, live)| - 1])
  }

  /** The state of the scan when it reaches the page number `i`. */
  ghost predicate Scanned(h0: Heap, h: Heap, chain: seq<nat>, rest: seq<nat>, i: nat, s: Scan, live: seq<nat>) {
    && i < |chain| && IsChain(h0, chain)
    && Locals(h0, chain, i, s, live)
    && IsChain(h, Before(chain, s, live) + (chain[i..] + rest))
    && SamePages(h0, h) && InvalidFreed(h0, h, chain, i)
  }

  lemma ScanStart(h: Heap, chain: seq<nat>, rest: seq<nat>)
    requires IsChain(h, chain + rest) && IsChain(h, chain) && chain != []
    ensures Scanned(h, h, chain, rest, 0, Scan(0, false, 0, false), [])
  {
    assert Before(chain, Scan(0, false, 0, false), []) + (chain[0..] + rest) == chain + rest;
  }

  lemma ScanHere(h0: Heap, h: Heap, chain: seq<nat>, rest: seq<nat>, i: nat, s: Scan, live: seq<nat>)
    requires Scanned(h0, h, chain, rest, i, s, live)
    ensures i < |chain| && chain[i] in h && IsChain(h, Before(chain, s, live) + [chain[i]] + (chain[i + 1..] + rest))
    ensures chain[i] == chain[0] <==> i == 0
    ensures i > 0 ==> Before(chain, s, live) != [] && s.last == Before(chain, s, live)[|Before(chain, s, live)| - 1]
    ensures i < |chain| - 1 ==> h[chain[i]].next == chain[i + 1] && chain[i] != chain[|chain| - 1]
    ensures i == |chain| - 1 <==> chain[i] == chain[|chain| - 1]
  {
    hide LivePages, SamePages, IsChain;
    var b := Before(chain, s, live);
    assert b + (chain[i..] + rest) == b + [chain[i]] + (chain[i + 1..] + rest);
    HeadOnce(h0, chain, i);
    NextInChain(h, b, chain[i], chain[i + 1..] + rest);
  }

  lemma LocalsNext(h0: Heap, chain: seq<nat>, i: nat, s: Scan, live: seq<nat>)
    requires i < |chain| - 1 && In(h0, chain) && Locals(h0, chain, i, s, live)
    requires (chain[i] == chain[0] <==> i == 0) && (i == 0 ==> live == [] && !s.dead)
    ensures var invalid := PageInvalid(h0[chain[i]]);
            var live' := if invalid then live else live + [chain[i]];
            Locals(h0, chain, i + 1, NextScan(s, chain[i], chain[i] == chain[0], invalid), live')
  {
    hide LivePages, In;
    LiveStep(h0, chain, i);
  }

  lemma BeforeNext(chain: seq<nat>, i: nat, s: Scan, live: seq<nat>, rest: seq<nat>, invalid: bool)
    requires i < |chain| - 1 && (chain[i] == chain[0] <==> i == 0) && (i == 0 ==> live == [] && !s.dead)
    ensures var first := chain[i] == chain[0];
            var b := Before(chain, s, live);
            (if invalid && !first then b else b + [chain[i]]) + (chain[i + 1..] + rest)
            == Before(chain, NextScan(s, chain[i], first, invalid), if invalid then live else live + [chain[i]])
                + (chain[i + 1..] + rest)
  {
  }

  lemma FreedNext(h0: Heap, h: Heap, h': Heap, chain: seq<nat>, i: nat, invalid: bool, last: nat)
    requires i < |chain| - 1 && chain[i] in h && chain[i] !in chain[..i] && (i > 0 ==> last in chain[..i])
    requires chain[i] == chain[0] <==> i == 0
    requires forall x | x in h' && (chain[i] == chain[0] || x != last) :: x in h && h'[x] == h[x]
    requires SamePages(h0, h) && SamePages(h, h') && InvalidFreed(h0, h, chain, i)
    requires invalid == PageInvalid(h[chain[i]])
    requires forall x :: x in h' <==> x in h && !(invalid && chain[i] != chain[0] && x == chain[i])
    ensures SamePages(h0, h') && InvalidFreed(h0, h', chain, i + 1)
  {
    assert chain[..i + 1] == chain[..i] + [chain[i]];
  }

  lemma ScanNext(h0: Heap, h: Heap, h': Heap, chain: seq<nat>, rest: seq<nat>, i: nat, s: Scan, live: seq<nat>,
                 invalid: bool)
    requires Scanned(h0, h, chain, rest, i, s, live) && i < |chain| - 1 && chain[i] in h
    requires invalid == PageInvalid(h[chain[i]]) && SamePages(h, h')
    requires var b := Before(chain, s, live);
             IsChain(h', (if invalid && chain[i] != chain[0] then b else b + [chain[i]]) + (chain[i + 1..] + rest))
    requires forall x :: x in h' <==> x in h && !(invalid && chain[i] != chain[0] && x == chain[i])
    requires forall x | x in h' && (chain[i] == chain[0] || x != s.last) :: h'[x] == h[x]
    ensures Scanned(h0, h', chain, rest, i + 1, NextScan(s, chain[i], chain[i] == chain[0], invalid),
                    if invalid then live else live + [chain[i]])
  {
    hide IsChain, LivePages, Before, InvalidFreed;
    HeadOnce(h0, chain, i);
    FirstLocals(h0, chain, i, s, live);
    LocalsNext(h0, chain, i, s, live);
    BeforeNext(chain, i, s, live, rest, invalid);
    HeadOnce(h0, chain, i);
    LastPassed(h0, chain, i, s, live);
    FreedNext(h0, h, h', chain, i, invalid, s.last);
  }

  lemma FirstLocals(h0: Heap, chain: seq<nat>, i: nat, s: Scan, live: seq<nat>)
    requires IsChain(h0, chain) && i < |chain| && Locals(h0, chain, i, s, live)
    ensures i == 0 ==> live == [] && !s.dead
  {
  }

  lemma LastPassed(h0: Heap, chain: seq<nat>, i: nat, s: Scan, live: seq<nat>)
    requires IsChain(h0, chain) && i < |chain| && Locals(h0, chain, i, s, live)
    ensures chain[i] !in chain[..i] && (i > 0 ==> s.last in chain[..i])
  {
    hide LivePages;
    if i > 0 {
      var b := Before(chain, s, live);
      assert b[|b| - 1] in b;
      assert chain[..i][0] == chain[0];
    }
  }

  lemma FreedEnd(h0: Heap, h: Heap, chain: seq<nat>, i: nat)
    requires i == |chain| - 1 && InvalidFreed(h0, h, chain, i) && chain[i] !in chain[..i] && In(h0, chain)
    ensures forall x | x in h0 && x !in h :: x in chain && x != chain[i] && x != chain[0] && PageInvalid(h0[x])
    ensures forall x | x in chain && x != chain[0] && x != chain[i] && PageInvalid(h0[x]) :: x !in h
    ensures forall x | x in h && (x !in chain || x == chain[i]) :: x in h0 && h[x] == h0[x]
  {
    assert chain == chain[..i] + [chain[i]];
    assert forall x :: x in chain <==> x in chain[..i] || x == chain[i];
  }

  lemma ScanEnd(h0: Heap, h: Heap, chain: seq<nat>, rest: seq<nat>, i: nat, s: Scan, live: seq<nat>)
    requires Scanned(h0, h, chain, rest, i, s, live) && chain[i] == chain[|chain| - 1]
    ensures i == |chain| - 1
    ensures var tail := chain[i];
            && In(h0, chain)
            && live + [tail] == LivePages(h0, chain[..|chain| - 1]) + [tail]
            && (if s.found then s.newHead else tail) == (live + [tail])[0]
            && (s.dead <==> |chain| > 1 && PageInvalid(h0[chain[0]]))
            && IsChain(h, (if s.dead then [chain[0]] else []) + (live + [tail]) + rest)
            && SamePages(h0, h)
            && (forall x | x in h0 && x !in h :: x in chain && x != tail && x != chain[0] && PageInvalid(h0[x]))
            && (forall x | x in chain && x != chain[0] && x != tail && PageInvalid(h0[x]) :: x !in h)
            && (forall x | x in h && (x !in chain || x == tail) :: x in h0 && h[x] == h0[x])
  {
    hide LivePages, SamePages, InvalidFreed, IsChain;
    HeadOnce(h0, chain, i);
    TailLast(h0, chain);
    FreedEnd(h0, h, chain, i);
    var pre := if s.dead then [chain[0]] else [];
    assert Before(chain, s, live) + (chain[i..] + rest) == pre + (live + [chain[i]]) + rest;
  }

  lemma LiveStep(h: Heap, chain: seq<nat>, i: nat)
    requires In(h, chain) && i < |chain|
    ensures LivePages(h, chain[..i + 1]) == LivePages(h, chain[..i])
              + (if PageInvalid(h[chain[i]]) then [] else [chain[i]])
    ensures chain[..i + 1] == chain[..i] + [chain[i]]
  {
    assert chain[..i + 1][..i] == chain[..i];
  }

  // ------------------------------------------------------ what the log still says

  /** A page is dropped only when GC may drop all its entries. */
  lemma PageThin(h: Heap, x: nat)
    requires x in h && h[x].num == |h[x].ents| && h[x].inv == Drops(h[x].ents)
    ensures Thin(if PageInvalid(h[x]) then [] else h[x].ents, h[x].ents)
  {
    DropsAll(h[x].ents);
    if PageInvalid(h[x]) { KeepNone(h[x].ents); } else { ThinSelf(h[x].ents); }
  }

  lemma {:induction false} LiveThin(h: Heap, c: seq<nat>, n: nat)
    requires In(h, c) && CountersOK(h, c) && n <= |c|
    ensures In(h, c[..n]) && Thin(Content(h, LivePages(h, c[..n])), Content(h, c[..n]))
  {
    if n > 0 {
      hide Thin, Content, LivePages, Drops, PageInvalid;
      var x, k := c[n - 1], n - 1;
      LiveThin(h, c, k);
      LiveStep(h, c, k);
      assert x in c;
      var l := LivePages(h, c[..k]);
      ContentSnoc(h, c[..k], x);
      ContentSnoc(h, l, x);
      PageThin(h, x);
      ThinConcat(Content(h, l), Content(h, c[..k]), if PageInvalid(h[x]) then [] else h[x].ents, h[x].ents);
      assert l + [] == l && Content(h, l) + [] == Content(h, l);
    }
  }

  /** The pages that fast GC keeps hold the log without entries it may drop. */
  lemma FastThin(h0: Heap, h: Heap, chain: seq<nat>, live: seq<nat>)
    requires chain != [] && In(h0, chain) && CountersOK(h0, chain) && SamePages(h0, h) && In(h, live)
    requires live == LivePages(h0, chain[..|chain| - 1]) + [chain[|chain| - 1]]
    ensures Thin(Content(h, live), Content(h0, chain))
  {
    hide Thin, Content, LivePages, Drops, PageInvalid;
    var n := |chain| - 1;
    var x, l := chain[n], LivePages(h0, chain[..n]);
    LiveThin(h0, chain, n);
    assert chain == chain[..n] + [x];
    ContentSnoc(h0, chain[..n], x);
    ContentSnoc(h0, l, x);
    ContentSame(h0, h, live);
    ThinSelf(h0[x].ents);
    ThinConcat(Content(h0, l), Content(h0, chain[..n]), h0[x].ents, h0[x].ents);
  }

  /** A page with an entry that is not dropped is not freed. */
  lemma LiveEntryKept(h0: Heap, chain: seq<nat>, live: seq<nat>, a: Addr)
    requires chain != [] && In(h0, chain) && CountersOK(h0, chain) && ValidAddr(h0, chain, a)
    requires !Drop(h0[a.page].ents[a.idx])
    requires live == LivePages(h0, chain[..|chain| - 1]) + [chain[|chain| - 1]]
    ensures a.page in live
  {
    hide LivePages;
    DropsAll(h0[a.page].ents);
    var n := |chain| - 1;
    assert chain == chain[..n] + [chain[n]];
  }

  /** Fast GC changes the block of no page, and every tree slot still points at the live
      entry that gives the page its block. */
  lemma FastKeepsFile(h0: Heap, h: Heap, chain: seq<nat>, live: seq<nat>, tree: map<nat, Addr>)
    requires chain != [] && In(h0, chain) && CountersOK(h0, chain) && SamePages(h0, h) && In(h, live)
    requires live == LivePages(h0, chain[..|chain| - 1]) + [chain[|chain| - 1]]
    requires StaleOK(Content(h0, chain)) && TreeOK(h0, chain, tree)
    ensures StaleOK(Content(h, live)) && TreeOK(h, live, tree)
    ensures forall p: nat :: BlockOf(Content(h, live), p) == BlockOf(Content(h0, chain), p)
  {
    FastThin(h0, h, chain, live);
    ThinSame(Content(h, live), Content(h0, chain));
    forall p: nat | p in tree ensures ValidAddr(h, live, tree[p]) && h[tree[p].page].ents == h0[tree[p].page].ents {
      LiveEntryKept(h0, chain, live, tree[p]);
    }
  }
}
