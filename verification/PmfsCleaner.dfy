/** The forward scan of the PMFS log cleaner (pmfs_clean_journal and
    pmfs_process_transaction), and when it stays clear of open transactions. */
module PmfsCleaner {
  import opened PmfsUndoWalk
  import opened PmfsCrash

  /** pmfs_process_transaction, not in recovery, for the LE_START at `x` when its
      scan has reached entry `j`: the new head, or `x` when nothing can be retired. */
  function ProcessTx(log: seq<Cell>, x: nat, j: nat, hi: nat): (r: nat)
    requires x <= j < hi <= |log|
    ensures x <= r <= hi
    decreases hi - j
  {
    if log[j].live && log[j].fin then j + 1
    else if j + 1 == hi || (log[j + 1].live && log[j + 1].start) then x
    else ProcessTx(log, x, j + 1, hi)
  }

  /** The head that pmfs_clean_journal arrives at from `x`. */
  function CleanTo(log: seq<Cell>, x: nat, hi: nat): (c: nat)
    requires x <= hi <= |log|
    ensures x <= c <= hi
    decreases hi - x
  {
    if x == hi then x
    else if log[x].live && log[x].start then
      var r := ProcessTx(log, x, x, hi);
      if r == x then x else CleanTo(log, r, hi)
    else CleanTo(log, x + 1, hi)
  }

  lemma {:induction false} ProcessSealed(log: seq<Cell>, x: nat, j: nat, e: nat, hi: nat)
    requires x <= j <= e < hi <= |log| && log[e].live && log[e].fin
    requires forall q | j <= q < e :: !(log[q].live && log[q].fin)
    requires forall q | j < q <= e :: !(log[q].live && log[q].start)
    ensures ProcessTx(log, x, j, hi) == e + 1
    decreases e - j
  {
    if j < e { ProcessSealed(log, x, j + 1, e, hi); }
  }

  lemma {:induction false} ProcessOpen(log: seq<Cell>, x: nat, j: nat, e: nat, hi: nat)
    requires x <= j < e <= hi <= |log| && (e == hi || (log[e].live && log[e].start))
    requires forall q | j <= q < e :: !(log[q].live && log[q].fin)
    ensures ProcessTx(log, x, j, hi) == x
    decreases e - j
  {
    if j + 1 < e && !(log[j + 1].live && log[j + 1].start) { ProcessOpen(log, x, j + 1, e, hi); }
  }

  /** The lowest open transaction, if any, has stored its first record. */
  ghost predicate FirstOpenStarted(txs: seq<Tx>) {
    forall i | 0 <= i < |txs| && FirstOpen(txs, i) :: |txs[i].ents| > 0
  }

  ghost predicate FirstOpen(txs: seq<Tx>, i: nat)
    requires i < |txs|
  {
    Unsealed(txs[i]) && forall j | 0 <= j < i :: !Unsealed(txs[j])
  }

  ghost predicate KeepsOpen(txs: seq<Tx>, c: nat) {
    forall i | 0 <= i < |txs| && Unsealed(txs[i]) :: c <= txs[i].lo
  }

  /** A point the scan can be at: between transactions, nothing open passed. */
  ghost predicate At(s: State, x: nat)
    requires Inv(s) && s.mode.Mounted?
  {
    s.mode.cl <= x <= s.cur.tail && KeepsOpen(s.mode.txs, x)
    && (forall i | 0 <= i < |s.mode.txs| :: !s.mode.txs[i].phase.Sealing? && !Straddles(s.mode.txs[i], x))
  }

  /** Ahead of the cleaner a slot is live exactly when a transaction stored it. */
  lemma AheadCell(s: State, p: nat)
    requires Inv(s) && s.mode.Mounted? && s.mode.cl <= p < |s.cur.log|
    ensures s.cur.log[p].live <==> Owned(s.mode.txs, p)
    ensures forall i | 0 <= i < |s.mode.txs| && Owns(s.mode.txs[i], p) ::
              s.cur.log[p] == s.mode.txs[i].ents[p - s.mode.txs[i].lo] && TxOK(s.mode.txs[i], s.cur.log, |s.spec|)
  {
    hide Data;
    forall i | 0 <= i < |s.mode.txs| && Owns(s.mode.txs[i], p)
      ensures s.cur.log[p] == s.mode.txs[i].ents[p - s.mode.txs[i].lo] && TxOK(s.mode.txs[i], s.cur.log, |s.spec|)
      ensures s.cur.log[p].live
    {
      assert CellOK(s.cur.log, s.dur.log, s.dur.head, s.mode.txs[i], p - s.mode.txs[i].lo, s.mode.cl);
    }
  }

  lemma OwnersOrder(s: State, i: nat, j: nat)
    requires Inv(s) && s.mode.Mounted? && i < |s.mode.txs| && j < |s.mode.txs| && i != j
    ensures TxOK(s.mode.txs[i], s.cur.log, |s.spec|)
    ensures s.mode.txs[j].lo + |s.mode.txs[j].ents| <= s.mode.txs[i].lo
              || s.mode.txs[i].lo + s.mode.txs[i].cap <= s.mode.txs[j].lo
    ensures i < j ==> s.mode.txs[i].lo < s.mode.txs[j].lo
  {
    hide Cells, Data;
    assert TxOK(s.mode.txs[i], s.cur.log, |s.spec|) && TxOK(s.mode.txs[j], s.cur.log, |s.spec|);
  }

  /** A live slot between transactions is the LE_START of the one that begins there. */
  lemma AtStart(s: State, x: nat) returns (i: nat)
    requires Inv(s) && s.mode.Mounted? && At(s, x) && x < s.cur.tail && s.cur.log[x].live
    ensures i < |s.mode.txs| && s.mode.txs[i].lo == x && |s.mode.txs[i].ents| > 0 && s.cur.log[x].start
    ensures TxOK(s.mode.txs[i], s.cur.log, |s.spec|)
  {
    AheadCell(s, x);
    i :| 0 <= i < |s.mode.txs| && Owns(s.mode.txs[i], x);
  }

  lemma SealedStep(s: State, x: nat, i: nat)
    requires Inv(s) && s.mode.Mounted? && At(s, x) && x < s.cur.tail
    requires i < |s.mode.txs| && s.mode.txs[i].lo == x && s.mode.txs[i].phase.Sealed?
    ensures |s.mode.txs[i].ents| > 0 && x + |s.mode.txs[i].ents| <= s.cur.tail
    ensures ProcessTx(s.cur.log, x, x, s.cur.tail) == x + |s.mode.txs[i].ents|
    ensures At(s, x + |s.mode.txs[i].ents|)
  {
    hide Regions, Cells, Data;
    var t := s.mode.txs[i];
    var e := x + |t.ents| - 1;
    SealedCells(s, x, i);
    ProcessSealed(s.cur.log, x, x, e, s.cur.tail);
    forall j | 0 <= j < |s.mode.txs|
      ensures !Straddles(s.mode.txs[j], e + 1) && (Unsealed(s.mode.txs[j]) ==> e + 1 <= s.mode.txs[j].lo)
    {
      BehindSealed(s, x, i, j);
    }
  }

  lemma BehindSealed(s: State, x: nat, i: nat, j: nat)
    requires Inv(s) && s.mode.Mounted? && At(s, x) && x < s.cur.tail && i < |s.mode.txs| && j < |s.mode.txs|
    requires s.mode.txs[i].lo == x && s.mode.txs[i].phase.Sealed? && TxOK(s.mode.txs[i], s.cur.log, |s.spec|)
    ensures var e := x + |s.mode.txs[i].ents|;
            !Straddles(s.mode.txs[j], e) && (Unsealed(s.mode.txs[j]) ==> e <= s.mode.txs[j].lo)
  {
    hide Regions, Cells, Data;
    if j != i {
      OwnersOrder(s, i, j);
      OwnersOrder(s, j, i);
    }
  }

  lemma SealedCells(s: State, x: nat, i: nat)
    requires Inv(s) && s.mode.Mounted? && At(s, x) && x < s.cur.tail
    requires i < |s.mode.txs| && s.mode.txs[i].lo == x && s.mode.txs[i].phase.Sealed?
    ensures var t := s.mode.txs[i];
            && TxOK(t, s.cur.log, |s.spec|) && |t.ents| > 0 && x + |t.ents| <= s.cur.tail
            && forall q | x <= q < x + |t.ents| :: s.cur.log[q] == t.ents[q - x]
  {
    hide Cells, Data;
    var t := s.mode.txs[i];
    assert TxOK(t, s.cur.log, |s.spec|);
    forall q | x <= q < x + |t.ents| ensures s.cur.log[q] == t.ents[q - x] {
      AheadCell(s, q);
      assert Owns(t, q);
    }
  }

  lemma OpenStep(s: State, x: nat, i: nat)
    requires Inv(s) && s.mode.Mounted? && At(s, x) && x < s.cur.tail
    requires i < |s.mode.txs| && s.mode.txs[i].lo == x && Unsealed(s.mode.txs[i])
    ensures ProcessTx(s.cur.log, x, x, s.cur.tail) == x
  {
    hide Regions, Cells, Data;
    var hi := s.cur.tail;
    var e := NextStart(s, x + 1, hi);
    forall q | x <= q < e ensures !(s.cur.log[q].live && s.cur.log[q].fin) {
      if s.cur.log[q].live {
        AheadCell(s, q);
        var j :| 0 <= j < |s.mode.txs| && Owns(s.mode.txs[j], q);
        if j != i {
          OwnersOrder(s, i, j);
          OwnersOrder(s, j, i);
          AheadCell(s, s.mode.txs[j].lo);
          assert Owns(s.mode.txs[j], s.mode.txs[j].lo);
        }
      }
    }
    ProcessOpen(s.cur.log, x, x, e, hi);
  }

  lemma {:induction false} NextStart(s: State, y: nat, hi: nat) returns (e: nat)
    requires y <= hi <= |s.cur.log|
    ensures y <= e <= hi && (e == hi || (s.cur.log[e].live && s.cur.log[e].start))
    ensures forall q | y <= q < e :: !(s.cur.log[q].live && s.cur.log[q].start)
    decreases hi - y
  {
    if y == hi || (s.cur.log[y].live && s.cur.log[y].start) { e := y; } else { e := NextStart(s, y + 1, hi); }
  }

  /** The scan retires whole closed transactions and stops at the first open one, as
      long as that one has stored its first record. */
  lemma {:induction false} CleanKeepsOpen(s: State, x: nat)
    requires Inv(s) && s.mode.Mounted? && At(s, x) && FirstOpenStarted(s.mode.txs)
    ensures At(s, CleanTo(s.cur.log, x, s.cur.tail))
    decreases s.cur.tail - x
  {
    hide Regions, Cells, Data;
    if x < s.cur.tail {
      if s.cur.log[x].live && s.cur.log[x].start {
        var i := AtStart(s, x);
        if s.mode.txs[i].phase.Sealed? {
          SealedStep(s, x, i);
          CleanKeepsOpen(s, x + |s.mode.txs[i].ents|);
        } else {
          OpenStep(s, x, i);
        }
      } else {
        PassBlank(s, x);
        CleanKeepsOpen(s, x + 1);
      }
    }
  }

  lemma PassBlank(s: State, x: nat)
    requires Inv(s) && s.mode.Mounted? && At(s, x) && FirstOpenStarted(s.mode.txs)
    requires x < s.cur.tail && !(s.cur.log[x].live && s.cur.log[x].start)
    ensures At(s, x + 1) && !s.cur.log[x].live
  {
    hide Regions, Cells, Data;
    var txs := s.mode.txs;
    if s.cur.log[x].live { var i := AtStart(s, x); }
    AheadCell(s, x);
    forall i | 0 <= i < |txs| ensures !Straddles(txs[i], x + 1) && (Unsealed(txs[i]) ==> x + 1 <= txs[i].lo) {
      assert !Owns(txs[i], x);
      if Unsealed(txs[i]) && txs[i].lo == x {
        var f := LowestOpen(txs, i);
        if f < i { OwnersOrder(s, f, i); }
      }
    }
  }

  lemma {:induction false} LowestOpen(txs: seq<Tx>, i: nat) returns (f: nat)
    requires i < |txs| && Unsealed(txs[i])
    ensures f <= i && FirstOpen(txs, f)
    decreases i
  {
    if FirstOpen(txs, i) { f := i; } else {
      var j :| 0 <= j < i && Unsealed(txs[j]);
      f := LowestOpen(txs, j);
    }
  }

  /** With nothing stored yet, the scan walks over the lowest open transaction. */
  lemma {:induction false} CleanPassesBlank(s: State, x: nat, f: nat)
    requires Inv(s) && s.mode.Mounted? && At(s, x)
    requires f < |s.mode.txs| && FirstOpen(s.mode.txs, f) && s.mode.txs[f].ents == [] && x <= s.mode.txs[f].lo
    ensures CleanTo(s.cur.log, x, s.cur.tail) > s.mode.txs[f].lo
    decreases s.cur.tail - x
  {
    hide Regions, Cells, Data;
    var txs := s.mode.txs;
    TailAbove(s, f);
    if s.cur.log[x].live {
      var i := AtStart(s, x);
      if i != f { OwnersOrder(s, f, i); OwnersOrder(s, i, f); }
      assert i < f;
      SealedStep(s, x, i);
      CleanPassesBlank(s, x + |txs[i].ents|, f);
    } else if x < txs[f].lo {
      AheadCell(s, x);
      forall i | 0 <= i < |txs| ensures !Straddles(txs[i], x + 1) && (Unsealed(txs[i]) ==> x + 1 <= txs[i].lo) {
        assert !Owns(txs[i], x);
        if i > f { OwnersOrder(s, f, i); }
      }
      CleanPassesBlank(s, x + 1, f);
    }
  }

  lemma TailAbove(s: State, f: nat)
    requires Inv(s) && s.mode.Mounted? && f < |s.mode.txs|
    ensures s.mode.txs[f].lo < s.cur.tail
  {
    hide Cells, Data;
    assert TxOK(s.mode.txs[f], s.cur.log, |s.spec|);
  }

  /** In every mounted state with no closing record in flight, the cleaner leaves all
      open transactions in the journal if and only if the lowest open one has stored
      its first record. */
  lemma CleanerSafeIff(s: State)
    requires Inv(s) && s.mode.Mounted? && At(s, s.mode.cl)
    ensures KeepsOpen(s.mode.txs, CleanTo(s.cur.log, s.mode.cl, s.cur.tail)) <==> FirstOpenStarted(s.mode.txs)
    ensures FirstOpenStarted(s.mode.txs) ==>
              forall i | 0 <= i < |s.mode.txs| :: !Straddles(s.mode.txs[i], CleanTo(s.cur.log, s.mode.cl, s.cur.tail))
  {
    hide Regions, Cells, Data;
    if FirstOpenStarted(s.mode.txs) {
      CleanKeepsOpen(s, s.mode.cl);
    } else {
      var f :| 0 <= f < |s.mode.txs| && FirstOpen(s.mode.txs, f) && |s.mode.txs[f].ents| == 0;
      CleanPassesBlank(s, s.mode.cl, f);
    }
  }
}
