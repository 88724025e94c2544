/** Recovery of the PMFS undo journal step by step (pmfs/journal.c): the walk moves down one
    record or one group at a time, and in the last generation it wipes the slots it has
    passed. What each of these leaves for a recovery that starts over. */
module PmfsRecovery {
  import opened PmfsUndoWalk

  function Dead(c: Cell): Cell { Cell(c.edge, false, false, false, 0, []) }

  /** The log with slot `p` wiped. */
  function Wiped(log: seq<Cell>, p: nat): (r: seq<Cell>)
    requires p < |log|
    ensures |r| == |log| && forall q | 0 <= q < |log| :: r[q] == if q == p then Dead(log[p]) else log[q]
  {
    log[p := Dead(log[p])]
  }

  // ----------------------------------------------------------------- same undone records

  /** The two windows undo the same records, which lie below both ends. */
  ghost predicate SameUndone(log: seq<Cell>, hi: nat, log': seq<Cell>, hi': nat, lo: nat)
    requires hi <= |log| && hi' <= |log'|
  {
    && (forall p: nat | Undone(log, lo, hi, p) :: Undone(log', lo, hi', p) && log'[p] == log[p])
    && (forall p: nat | Undone(log', lo, hi', p) :: Undone(log, lo, hi, p))
  }

  lemma SameRestores(log: seq<Cell>, hi: nat, log': seq<Cell>, hi': nat, lo: nat, data: seq<Byte>, want: seq<Byte>)
    requires hi <= |log| && hi' <= |log'| && SameUndone(log, hi, log', hi', lo)
    ensures Restores(log, lo, hi, data, want) <==> Restores(log', lo, hi', data, want)
    ensures forall a: nat :: Untouched(log, lo, hi, a) <==> Untouched(log', lo, hi', a)
  {
    hide Undone;
    forall a: nat ensures Untouched(log, lo, hi, a) <==> Untouched(log', lo, hi', a) {
      SameUntouched(log, hi, log', hi', lo, a);
    }
    forall a: nat, p: nat ensures Lowest(log, lo, hi, p, a) <==> Lowest(log', lo, hi', p, a) {
      SameLowest(log, hi, log', hi', lo, p, a);
    }
    if Restores(log, lo, hi, data, want) { HalfRestores(log, hi, log', hi', lo, data, want); }
    if Restores(log', lo, hi', data, want) {
      Mirrored(log, hi, log', hi', lo);
      HalfRestores(log', hi', log, hi, lo, data, want);
    }
  }

  lemma Mirrored(log: seq<Cell>, hi: nat, log': seq<Cell>, hi': nat, lo: nat)
    requires hi <= |log| && hi' <= |log'| && SameUndone(log, hi, log', hi', lo)
    ensures SameUndone(log', hi', log, hi, lo)
  {
  }

  lemma SameUntouched(log: seq<Cell>, hi: nat, log': seq<Cell>, hi': nat, lo: nat, a: nat)
    requires hi <= |log| && hi' <= |log'| && SameUndone(log, hi, log', hi', lo)
    ensures Untouched(log, lo, hi, a) <==> Untouched(log', lo, hi', a)
  {
    if !Untouched(log, lo, hi, a) {
      var p :| lo <= p < hi && Undone(log, lo, hi, p) && Covers(log[p], a);
      assert Undone(log', lo, hi', p);
    }
    if !Untouched(log', lo, hi', a) {
      var p :| lo <= p < hi' && Undone(log', lo, hi', p) && Covers(log'[p], a);
      assert Undone(log, lo, hi, p);
    }
  }

  lemma SameLowest(log: seq<Cell>, hi: nat, log': seq<Cell>, hi': nat, lo: nat, p: nat, a: nat)
    requires hi <= |log| && hi' <= |log'| && SameUndone(log, hi, log', hi', lo)
    ensures Lowest(log, lo, hi, p, a) <==> Lowest(log', lo, hi', p, a)
  {
    if Lowest(log, lo, hi, p, a) {
      forall q | lo <= q < p && Undone(log', lo, hi', q) ensures !Covers(log'[q], a) { assert Undone(log, lo, hi, q); }
    }
    if Lowest(log', lo, hi', p, a) {
      forall q | lo <= q < p && Undone(log, lo, hi, q) ensures !Covers(log[q], a) { assert Undone(log', lo, hi', q); }
    }
  }

  lemma HalfRestores(log: seq<Cell>, hi: nat, log': seq<Cell>, hi': nat, lo: nat, data: seq<Byte>, want: seq<Byte>)
    requires hi <= |log| && hi' <= |log'| && SameUndone(log, hi, log', hi', lo) && Restores(log, lo, hi, data, want)
    ensures Restores(log', lo, hi', data, want)
  {
    forall a | 0 <= a < |data| && Untouched(log', lo, hi', a)
      ensures data[a] == want[a]
    {
      SameUntouched(log, hi, log', hi', lo, a);
    }
    forall a, p | 0 <= a < |data| && lo <= p < hi' && Lowest(log', lo, hi', p, a)
      ensures log'[p].saved[a - log'[p].addr] == want[a]
    {
      SameLowest(log, hi, log', hi', lo, p, a);
    }
  }

  /** What is undone below `hi` depends on the slots below `hi` only. */
  lemma UndoneFrame(log: seq<Cell>, log': seq<Cell>, lo: nat, hi: nat)
    requires hi <= |log| && hi <= |log'| && forall q | 0 <= q < hi :: log'[q] == log[q]
    ensures SameUndone(log, hi, log', hi, lo)
  {
    forall p: nat | lo <= p < hi ensures Undone(log', lo, hi, p) <==> Undone(log, lo, hi, p) {
      forall s | lo <= s <= p ensures Opens(log', s, p) <==> Opens(log, s, p) {}
      forall e | p < e < hi ensures Caps(log', p, e) <==> Caps(log, p, e) {}
    }
  }

  // -------------------------------------------------------------------------- the walk

  /** Undoing the topmost record of the window. */
  lemma UndoTop(log: seq<Cell>, lo: nat, i: nat, data: seq<Byte>, want: seq<Byte>)
    requires lo < i <= |log| && Fits(log, |data|) && Undone(log, lo, i, i - 1) && Restores(log, lo, i, data, want)
    ensures Restores(log, lo, i - 1, Undo(log[i - 1], data), want)
    ensures forall p: nat | Undone(log, lo, i - 1, p) :: Undone(log, lo, i, p)
  {
    hide Undone;
    var j := i - 1;
    var data' := Undo(log[j], data);
    forall p: nat | p < j ensures Undone(log, lo, j, p) <==> Undone(log, lo, i, p) { TopAside(log, lo, i, p); }
    forall p: nat | Undone(log, lo, j, p) ensures p < j { UndoneIn(log, lo, j, p); }
    forall a | 0 <= a < |data| && Untouched(log, lo, j, a) ensures data'[a] == want[a] {
      if Covers(log[j], a) { LowestIs(log, lo, i, j, a); } else { UntouchedIs(log, lo, i, a); }
    }
    forall a, p | 0 <= a < |data| && lo <= p < j && Lowest(log, lo, j, p, a)
      ensures log[p].saved[a - log[p].addr] == want[a]
    {
      LowestUp(log, lo, i, p, a);
    }
  }

  lemma UndoneIn(log: seq<Cell>, lo: nat, hi: nat, p: nat)
    requires hi <= |log| && Undone(log, lo, hi, p)
    ensures lo <= p < hi && log[p].live && !log[p].fin
  {
  }

  lemma TopAside(log: seq<Cell>, lo: nat, i: nat, p: nat)
    requires lo < i <= |log| && Undone(log, lo, i, i - 1) && p < i - 1
    ensures Undone(log, lo, i - 1, p) <==> Undone(log, lo, i, p)
  {
    if lo <= p && Capped(log, p, i) {
      var e :| p < e < i && Caps(log, p, e);
      assert e < i - 1;
      assert Capped(log, p, i - 1);
    }
    if lo <= p && Capped(log, p, i - 1) {
      var e :| p < e < i - 1 && Caps(log, p, e);
      assert Capped(log, p, i);
    }
  }

  lemma LowestIs(log: seq<Cell>, lo: nat, i: nat, j: nat, a: nat)
    requires lo <= j < i <= |log| && j == i - 1 && Undone(log, lo, i, j) && Covers(log[j], a)
    requires Untouched(log, lo, j, a)
    requires forall p: nat | p < j :: Undone(log, lo, j, p) <==> Undone(log, lo, i, p)
    ensures Lowest(log, lo, i, j, a)
  {
    forall q | lo <= q < j && Undone(log, lo, i, q) ensures !Covers(log[q], a) { assert Undone(log, lo, j, q); }
  }

  lemma UntouchedIs(log: seq<Cell>, lo: nat, i: nat, a: nat)
    requires lo < i <= |log| && !Covers(log[i - 1], a) && Untouched(log, lo, i - 1, a)
    requires forall p: nat | p < i - 1 :: Undone(log, lo, i - 1, p) <==> Undone(log, lo, i, p)
    ensures Untouched(log, lo, i, a)
  {
    forall p | lo <= p < i && Undone(log, lo, i, p)
      ensures !Covers(log[p], a)
    {
      if p < i - 1 { assert Undone(log, lo, i - 1, p); }
    }
  }

  lemma LowestUp(log: seq<Cell>, lo: nat, i: nat, p: nat, a: nat)
    requires lo < i <= |log| && p < i - 1 && Lowest(log, lo, i - 1, p, a)
    requires forall p: nat | p < i - 1 :: Undone(log, lo, i - 1, p) <==> Undone(log, lo, i, p)
    ensures Lowest(log, lo, i, p, a)
  {
    forall q | lo <= q < p && Undone(log, lo, i, q) ensures !Covers(log[q], a) { assert Undone(log, lo, i - 1, q); }
  }

  /** Where the walk goes from a topmost record that is not undone: past a slot that fails the
      generation test, or past the whole group. */
  function Skip(log: seq<Cell>, lo: nat, i: nat): (b: nat)
    requires lo < i <= |log|
    ensures lo <= b < i
  {
    if log[i - 1].live then GroupLow(log, lo, i - 1) else i - 1
  }

  lemma SkipTop(log: seq<Cell>, lo: nat, i: nat)
    requires lo < i <= |log| && !Undone(log, lo, i, i - 1)
    ensures SameUndone(log, i, log, Skip(log, lo, i), lo)
  {
    hide Undone;
    var b := Skip(log, lo, i);
    forall p: nat | Undone(log, lo, i, p) ensures Undone(log, lo, b, p) {
      UndoneIn(log, lo, i, p);
      SkipOne(log, lo, i, p);
    }
    forall p: nat | Undone(log, lo, b, p) ensures Undone(log, lo, i, p) {
      UndoneIn(log, lo, b, p);
      SkipOne(log, lo, i, p);
    }
  }

  lemma SkipOne(log: seq<Cell>, lo: nat, i: nat, p: nat)
    requires lo < i <= |log| && !Undone(log, lo, i, i - 1) && lo <= p < i
    ensures Undone(log, lo, i, p) <==> p < Skip(log, lo, i) && Undone(log, lo, Skip(log, lo, i), p)
  {
    hide Undone;
    if !log[i - 1].live {
      NotLiveTop(log, lo, i, p);
    } else if p < GroupLow(log, lo, i - 1) {
      BelowGroup(log, lo, i, p);
    } else {
      GroupUndone(log, lo, i, p);
      GroupUndone(log, lo, i, i - 1);
    }
  }

  // -------------------------------------------------------------------------- wiping

  /** No open transaction of the same lap reaches up to slot `p`: with the mark at `p` gone,
      the records above it do not come to belong to one below, and no closing record above
      comes to close one. */
  ghost predicate Unreached(log: seq<Cell>, lo: nat, p: nat)
    requires p < |log|
  {
    log[p].edge || forall s: nat | lo <= s :: !Reaches(log, s, p)
  }

  /** The open transaction from `s` on goes up to just below slot `p`. */
  ghost predicate Reaches(log: seq<Cell>, s: nat, p: nat)
    requires p < |log|
  {
    s < p && Opens(log, s, p - 1)
  }

  /** Wiping a record that is not undone changes nothing for the others, if it is no mark or
      nothing open reaches it. */
  lemma WipeOther(log: seq<Cell>, lo: nat, hi: nat, p: nat)
    requires lo <= p < hi <= |log| && !Undone(log, lo, hi, p) && (Mark(log[p]) ==> Unreached(log, lo, p))
    ensures SameUndone(log, hi, Wiped(log, p), hi, lo)
  {
    hide Under, Capped;
    var log' := Wiped(log, p);
    forall q: nat | Undone(log, lo, hi, q) ensures Undone(log', lo, hi, q) && log'[q] == log[q] {
      UndoneIn(log, lo, hi, q);
      WipeKeeps(log, lo, hi, p, q);
    }
    forall q: nat | Undone(log', lo, hi, q) ensures Undone(log, lo, hi, q) {
      UndoneIn(log', lo, hi, q);
      WipeAdds(log, lo, hi, p, q);
    }
  }

  /** Records that stay undone: those outside the group that `p` starts. */
  lemma WipeKeeps(log: seq<Cell>, lo: nat, hi: nat, p: nat, q: nat)
    requires lo <= p < hi <= |log| && (Mark(log[p]) ==> Unreached(log, lo, p)) && p != q && Undone(log, lo, hi, q)
    requires !Undone(log, lo, hi, p) || q < p || !Opens(log, p, q)
    ensures Undone(Wiped(log, p), lo, hi, q)
  {
    var log' := Wiped(log, p);
    var s :| lo <= s <= q && Opens(log, s, q);
    if s == p {
      WholeGroup(log, lo, hi, p, q);
      assert false;
    }
    assert Opens(log', s, q);
    if Capped(log', q, hi) {
      var e :| q < e < hi && Caps(log', q, e);
      assert Mark(log[p]) ==> log[p].edge || !Reaches(log, s, p);
      assert Caps(log, q, e);
    }
  }

  /** A group is undone as a whole. */
  lemma WholeGroup(log: seq<Cell>, lo: nat, hi: nat, p: nat, q: nat)
    requires lo <= p <= q < hi <= |log| && Opens(log, p, q)
    ensures log[q].live && Undone(log, lo, hi, p) ==> Undone(log, lo, hi, q)
    ensures Undone(log, lo, hi, q) ==> Undone(log, lo, hi, p)
  {
    assert Opens(log, p, p);
    if Capped(log, p, hi) {
      var e :| p < e < hi && Caps(log, p, e);
      assert q < e && Caps(log, q, e);
    }
    if Capped(log, q, hi) {
      var e :| q < e < hi && Caps(log, q, e);
      assert Caps(log, p, e);
    }
  }

  lemma WipeAdds(log: seq<Cell>, lo: nat, hi: nat, p: nat, q: nat)
    requires lo <= p < hi <= |log| && (Mark(log[p]) ==> Unreached(log, lo, p)) && Undone(Wiped(log, p), lo, hi, q)
    ensures Undone(log, lo, hi, q) && (p <= q ==> !Opens(log, p, q))
  {
    var log' := Wiped(log, p);
    var s :| lo <= s <= q && Opens(log', s, q);
    assert Mark(log[p]) ==> log[p].edge || !Reaches(log, s, p);
    assert Opens(log, s, q);
    if Capped(log, q, hi) {
      var e :| q < e < hi && Caps(log, q, e);
      assert Caps(log', q, e);
    }
  }

  /** No byte is saved by undone records of two groups. */
  ghost predicate GroupsApart(log: seq<Cell>, lo: nat, hi: nat)
    requires hi <= |log|
  {
    forall p: nat, q: nat, a: nat | Undone(log, lo, hi, p) && Undone(log, lo, hi, q) && Covers(log[p], a)
        && Covers(log[q], a) ::
      SameGroup(log, p, q)
  }

  /** Nothing that starts a group lies between. */
  ghost predicate SameGroup(log: seq<Cell>, p: nat, q: nat)
    requires p < |log| && q < |log|
  {
    forall m | p < m <= q || q < m <= p :: !Mark(log[m]) && !log[m].edge
  }

  /** Wiping the start record of an undone transaction, with nothing open reaching it: a restart
      undoes the same records but for that transaction, so its bytes must be in place. */
  lemma WipeStart(log: seq<Cell>, lo: nat, hi: nat, p: nat, data: seq<Byte>, want: seq<Byte>)
    requires lo <= p < hi <= |log| && log[p].start && Undone(log, lo, hi, p) && Unreached(log, lo, p)
    requires GroupsApart(log, lo, hi) && Restores(log, lo, hi, data, want)
    requires forall a: nat | a < |data| && Untouched(log, lo, p, a) :: data[a] == want[a]
    requires forall q: nat | Undone(log, lo, p, q) :: Undone(log, lo, hi, q)
    ensures Restores(Wiped(log, p), lo, hi, data, want)
    ensures forall a: nat | a < |data| && Untouched(Wiped(log, p), lo, hi, a) :: data[a] == want[a]
    ensures forall q: nat | Undone(log, lo, p, q) :: Undone(Wiped(log, p), lo, hi, q)
  {
    hide Undone;
    var log' := Wiped(log, p);
    forall q: nat | Undone(log', lo, hi, q)
      ensures Undone(log, lo, hi, q) && q < |log| && log'[q] == log[q] && (p <= q ==> !Opens(log, p, q))
    {
      UndoneIn(log', lo, hi, q);
      WipeAdds(log, lo, hi, p, q);
    }
    forall q: nat | Undone(log, lo, hi, q) ensures q < hi && (Undone(log', lo, hi, q) || InGroup(log, p, q)) {
      UndoneIn(log, lo, hi, q);
      if !InGroup(log, p, q) { WipeKeeps(log, lo, hi, p, q); }
    }
    forall q: nat | Undone(log, lo, p, q) ensures Undone(log', lo, hi, q) { UndoneIn(log, lo, p, q); }
    forall a: nat | a < |data| && Untouched(log', lo, hi, a) ensures data[a] == want[a] {
      BelowUntouched(log, log', lo, hi, p, a);
    }
    forall a, q | 0 <= a < |data| && lo <= q < hi && Lowest(log', lo, hi, q, a)
      ensures log'[q].saved[a - log'[q].addr] == want[a]
    {
      StillLowest(log, log', lo, hi, p, q, a);
    }
  }

  ghost predicate InGroup(log: seq<Cell>, p: nat, q: nat)
    requires q < |log|
  {
    p <= q && Opens(log, p, q)
  }

  lemma BelowUntouched(log: seq<Cell>, log': seq<Cell>, lo: nat, hi: nat, p: nat, a: nat)
    requires p < hi <= |log| == |log'| && Untouched(log', lo, hi, a) && forall q | 0 <= q < p :: log'[q] == log[q]
    requires forall q: nat | Undone(log, lo, p, q) :: Undone(log', lo, hi, q)
    ensures Untouched(log, lo, p, a)
  {
    forall q | lo <= q < p && Undone(log, lo, p, q) ensures !Covers(log[q], a) { assert Undone(log', lo, hi, q); }
  }

  lemma StillLowest(log: seq<Cell>, log': seq<Cell>, lo: nat, hi: nat, p: nat, q: nat, a: nat)
    requires lo <= p < hi <= |log| == |log'| && Lowest(log', lo, hi, q, a) && GroupsApart(log, lo, hi)
    requires forall q: nat | Undone(log', lo, hi, q) ::
               Undone(log, lo, hi, q) && log'[q] == log[q] && !InGroup(log, p, q)
    requires forall q: nat | Undone(log, lo, hi, q) :: Undone(log', lo, hi, q) || InGroup(log, p, q)
    ensures Lowest(log, lo, hi, q, a)
  {
    forall m | lo <= m < q && Undone(log, lo, hi, m) ensures !Covers(log[m], a) {
      if Undone(log', lo, hi, m) {
        assert log'[m] == log[m];
      } else if Covers(log[m], a) {
        assert SameGroup(log, m, q);
        assert Opens(log, p, q);
      }
    }
  }

  /** Wiping leaves fewer undone records, so the groups stay apart. */
  lemma ApartStays(log: seq<Cell>, lo: nat, hi: nat, p: nat)
    requires lo <= p < hi <= |log| && GroupsApart(log, lo, hi) && (Mark(log[p]) ==> Unreached(log, lo, p))
    ensures GroupsApart(Wiped(log, p), lo, hi)
  {
    hide Under, Capped;
    var log' := Wiped(log, p);
    forall x: nat, y: nat, a: nat | Undone(log', lo, hi, x) && Undone(log', lo, hi, y) && Covers(log'[x], a)
        && Covers(log'[y], a)
      ensures SameGroup(log', x, y)
    {
      UndoneIn(log', lo, hi, x);
      UndoneIn(log', lo, hi, y);
      WipeAdds(log, lo, hi, p, x);
      WipeAdds(log, lo, hi, p, y);
      assert SameGroup(log, x, y);
    }
  }
}
