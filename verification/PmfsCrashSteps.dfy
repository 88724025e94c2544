/** Every step of the PMFS journal's step system keeps its invariant. */
module PmfsCrashSteps {
  import opened PmfsUndoWalk
  import opened PmfsRecovery
  import opened PmfsCrash

  // ---------------------------------------------------------------- frames

  lemma CoveredSnoc(ents: seq<Cell>, c: Cell, n: nat, a: nat)
    requires n <= |ents|
    ensures Covered(ents + [c], n, a) <==> Covered(ents, n, a)
    ensures Covered(ents + [c], |ents| + 1, a) <==> Covered(ents, |ents|, a) || Covers(c, a)
  {
    if Covered(ents, n, a) {
      var k :| 0 <= k < n && Covers(ents[k], a);
      assert Covers((ents + [c])[k], a);
    }
    if Covered(ents, |ents|, a) {
      var k :| 0 <= k < |ents| && Covers(ents[k], a);
      assert Covers((ents + [c])[k], a);
    }
    if Covers(c, a) { assert Covers((ents + [c])[|ents|], a); }
  }

  lemma CoveredGrows(ents: seq<Cell>, m: nat, n: nat, a: nat)
    requires m <= n <= |ents| && Covered(ents, m, a)
    ensures Covered(ents, n, a)
  {
  }

  lemma OwnedReplace(txs: seq<Tx>, i: nat, t: Tx, p: nat)
    requires i < |txs| && t.lo == txs[i].lo && |t.ents| >= |txs[i].ents| && Owned(txs, p)
    ensures Owned(txs[i := t], p)
  {
    var j :| 0 <= j < |txs| && Owns(txs[j], p);
    assert Owns(txs[i := t][j], p);
  }

  lemma TxCellsFrame(clog: seq<Cell>, dlog: seq<Cell>, clog': seq<Cell>, dlog': seq<Cell>, dhead: nat, t: Tx, cl: nat)
    requires TxCells(clog, dlog, dhead, t, cl) && |clog'| == |dlog'| >= |clog|
    requires forall p | t.lo <= p < t.lo + |t.ents| :: clog'[p] == clog[p] && dlog'[p] == dlog[p]
    ensures TxCells(clog', dlog', dhead, t, cl)
  {
    forall k | 0 <= k < |t.ents| ensures CellOK(clog', dlog', dhead, t, k, cl) {
      assert CellOK(clog, dlog, dhead, t, k, cl);
    }
  }

  /** Two reservations share no position. */
  lemma Apart(log: seq<Cell>, size: nat, heads: (nat, nat), tails: (nat, nat), txs: seq<Tx>, cl: nat, i: nat, j: nat)
    requires Regions(log, size, heads, tails, txs, cl) && i < |txs| && j < |txs| && i != j
    ensures txs[j].lo + |txs[j].ents| <= txs[i].lo || txs[i].lo + txs[i].cap <= txs[j].lo
  {
    assert TxOK(txs[i], log, size) && TxOK(txs[j], log, size);
  }

  lemma RegionsReplace(log: seq<Cell>, size: nat, heads: (nat, nat), tails: (nat, nat), txs: seq<Tx>, cl: nat, i: nat,
                       t: Tx)
    requires Regions(log, size, heads, tails, txs, cl) && i < |txs|
    requires TxOK(t, log, size) && t.lo == txs[i].lo && t.cap == txs[i].cap
    requires t.fenced > 0 || t.phase.Sealing? ==> t.lo + t.cap <= tails.1
    requires Unsealed(t) ==> Unsealed(txs[i])
    requires !Straddles(t, heads.0) && !Straddles(t, heads.1)
    ensures Regions(log, size, heads, tails, txs[i := t], cl)
  {
  }

  lemma CellsReplace(clog: seq<Cell>, dlog: seq<Cell>, dhead: nat, txs: seq<Tx>, cl: nat, i: nat, t: Tx)
    requires Cells(clog, dlog, dhead, txs, cl) && i < |txs|
    requires t.lo == txs[i].lo && |t.ents| >= |txs[i].ents| && TxCells(clog, dlog, dhead, t, cl)
    ensures Cells(clog, dlog, dhead, txs[i := t], cl)
  {
    forall p | dhead <= p < |clog| && (clog[p].live || dlog[p].live) ensures Owned(txs[i := t], p) {
      OwnedReplace(txs, i, t, p);
    }
  }

  /** Bytes no open transaction may write stay so when `i` may write no less. */
  lemma IdleReplace(txs: seq<Tx>, i: nat, t: Tx, a: nat)
    requires i < |txs| && (forall j | 0 <= j < |txs| :: txs[j].fenced <= |txs[j].ents|) && t.fenced <= |t.ents|
    requires Unsealed(t) && (Writable(txs[i], a) ==> Writable(t, a))
    requires Idle(txs[i := t], a)
    ensures Idle(txs, a)
  {
    forall j | 0 <= j < |txs| && Unsealed(txs[j]) ensures !Writable(txs[j], a) {
      assert !Writable(txs[i := t][j], a);
    }
  }

  lemma DataReplace(cdata: seq<Byte>, ddata: seq<Byte>, spec: seq<Byte>, txs: seq<Tx>, i: nat, t: Tx)
    requires Data(cdata, ddata, spec, txs) && i < |txs| && Unsealed(txs[i]) && Unsealed(t)
    requires t.ents == txs[i].ents && txs[i].fenced <= t.fenced <= |t.ents|
    requires SavesSpec(t, spec) && PhaseData(cdata, ddata, spec, t)
    ensures Data(cdata, ddata, spec, txs[i := t])
  {
    var txs' := txs[i := t];
    forall a | 0 <= a < |spec| && Idle(txs', a) ensures cdata[a] == ddata[a] == spec[a] {
      IdleReplace(txs, i, t, a);
    }
    forall x, y | 0 <= x < y < |txs| && Unsealed(txs'[x]) && Unsealed(txs'[y]) ensures Disjoint(txs'[x], txs'[y]) {
      assert Disjoint(txs[x], txs[y]);
    }
  }

  // ------------------------------------------------- steps of transactions

  lemma StepFenceLog(s: State, i: nat)
    requires Inv(s) && CanFenceLog(s, i)
    ensures Inv(DoFenceLog(s, i))
  {
    var t := s.mode.txs[i];
    var t' := t.(fenced := |t.ents|);
    assert TxOK(t, s.cur.log, |s.spec|);
    FenceCells(s, t, s.mode.cl);
    FenceSaves(t, s.spec);
    ReplaceTx(s, i, t');
  }

  lemma FenceCells(s: State, t: Tx, cl: nat)
    requires Shape(s) && TxCells(s.cur.log, s.dur.log, s.dur.head, t, cl) && t.phase.Running?
    requires s.dur.log[t.lo..t.lo + |t.ents|] == s.cur.log[t.lo..t.lo + |t.ents|]
    ensures TxCells(s.cur.log, s.dur.log, s.dur.head, t.(fenced := |t.ents|), cl)
  {
    forall k | 0 <= k < |t.ents| ensures CellOK(s.cur.log, s.dur.log, s.dur.head, t.(fenced := |t.ents|), k, cl) {
      assert CellOK(s.cur.log, s.dur.log, s.dur.head, t, k, cl);
      assert s.dur.log[t.lo..t.lo + |t.ents|][k] == s.cur.log[t.lo..t.lo + |t.ents|][k];
    }
  }

  lemma FenceSaves(t: Tx, spec: seq<Byte>)
    requires t.fenced <= |t.ents| && SavesSpec(t, spec)
    ensures SavesSpec(t.(fenced := |t.ents|), spec)
  {
    forall k, a | 0 <= k < |t.ents| && 0 <= a < |spec| && Covers(t.ents[k], a) && !Covered(t.ents, k, a)
      ensures t.ents[k].saved[a - t.ents[k].addr] == spec[a]
    {
      if k >= t.fenced && Covered(t.ents, t.fenced, a) { CoveredGrows(t.ents, t.fenced, k, a); }
      assert !Covered(t.ents, if k < t.fenced then k else t.fenced, a);
    }
  }

  /** Changing what is known about an open transaction, with its records kept. */
  lemma ReplaceTx(s: State, i: nat, t: Tx)
    requires Inv(s) && TxAt(s, i) && Unsealed(s.mode.txs[i]) && !t.phase.Sealing? && Unsealed(t)
    requires t.lo == s.mode.txs[i].lo && t.cap == s.mode.txs[i].cap && t.ents == s.mode.txs[i].ents
    requires s.mode.txs[i].fenced <= t.fenced
    requires TxOK(t, s.cur.log, |s.spec|) && (t.fenced > 0 ==> t.lo + t.cap <= s.dur.tail)
    requires TxCells(s.cur.log, s.dur.log, s.dur.head, t, s.mode.cl)
    requires SavesSpec(t, s.spec) && PhaseData(s.cur.data, s.dur.data, s.spec, t)
    ensures Inv(SetTx(s, i, t))
  {
    var txs, cl := s.mode.txs, s.mode.cl;
    RegionsReplace(s.cur.log, |s.spec|, (s.cur.head, s.dur.head), (s.cur.tail, s.dur.tail), txs, cl, i, t);
    CellsReplace(s.cur.log, s.dur.log, s.dur.head, txs, cl, i, t);
    DataReplace(s.cur.data, s.dur.data, s.spec, txs, i, t);
  }

  lemma StepWrite(s: State, i: nat, a: nat, v: Byte)
    requires Inv(s) && CanWrite(s, i, a)
    ensures Inv(DoWrite(s, i, a, v))
  {
    WriteData(s.cur.data, s.cur.data[a := v], s.dur.data, s.spec, s.mode.txs, i);
  }

  /** An open transaction may change the bytes it has saved: others keep theirs. */
  lemma WriteData(cdata: seq<Byte>, cdata': seq<Byte>, ddata: seq<Byte>, spec: seq<Byte>, txs: seq<Tx>, i: nat)
    requires Data(cdata, ddata, spec, txs) && i < |txs| && Unsealed(txs[i])
    requires |cdata'| == |cdata| && PhaseData(cdata', ddata, spec, txs[i])
    requires forall a | 0 <= a < |spec| && cdata'[a] != cdata[a] :: Writable(txs[i], a)
    ensures Data(cdata', ddata, spec, txs)
  {
    forall j | 0 <= j < |txs| && Unsealed(txs[j]) ensures PhaseData(cdata', ddata, spec, txs[j]) {
      if j != i {
        var t, u := txs[i], txs[j];
        assert Disjoint(t, u) || Disjoint(u, t);
        forall a | 0 <= a < |spec| && Covered(u.ents, |u.ents|, a) ensures cdata'[a] == cdata[a] {
          assert !Covered(t.ents, |t.ents|, a);
        }
        if u.phase.Sealing? {
          forall a | 0 <= a < |spec| && Writable(u, a) ensures cdata'[a] == cdata[a] {
            CoveredGrows(u.ents, u.fenced, |u.ents|, a);
          }
        }
      }
    }
  }

  lemma StepBeginAbort(s: State, i: nat)
    requires Inv(s) && CanBeginAbort(s, i)
    ensures Inv(DoBeginAbort(s, i))
  {
    var t := s.mode.txs[i];
    var t' := t.(phase := Aborting(|t.ents|));
    assert TxOK(t, s.cur.log, |s.spec|);
    PhaseCells(s, t, t', s.mode.cl);
    assert SavesSpec(t, s.spec);
    ReplaceTx(s, i, t');
  }

  lemma PhaseCells(s: State, t: Tx, t': Tx, cl: nat)
    requires Shape(s) && TxCells(s.cur.log, s.dur.log, s.dur.head, t, cl) && t' == t.(phase := t'.phase)
    requires Unsealed(t) && Unsealed(t') && !t'.phase.Sealing?
    ensures TxCells(s.cur.log, s.dur.log, s.dur.head, t', cl)
  {
    forall k | 0 <= k < |t.ents| ensures CellOK(s.cur.log, s.dur.log, s.dur.head, t', k, cl) {
      assert CellOK(s.cur.log, s.dur.log, s.dur.head, t, k, cl);
    }
  }

  lemma StepUndoOne(s: State, i: nat)
    requires Inv(s) && CanUndoOne(s, i)
    ensures Inv(DoUndoOne(s, i))
  {
    hide Regions, Cells, Data;
    var t := s.mode.txs[i];
    var k := t.phase.left - 1;
    UndoCell(s, i, k);
    UndoOneLog(s, i);
    UndoOneData(s, i);
  }

  lemma UndoOneLog(s: State, i: nat)
    requires Inv(s) && CanUndoOne(s, i)
    ensures var txs' := s.mode.txs[i := s.mode.txs[i].(phase := Aborting(s.mode.txs[i].phase.left - 1))];
            && Regions(s.cur.log, |s.spec|, (s.cur.head, s.dur.head), (s.cur.tail, s.dur.tail), txs', s.mode.cl)
            && Cells(s.cur.log, s.dur.log, s.dur.head, txs', s.mode.cl)
  {
    hide Data;
    var t := s.mode.txs[i];
    var t' := t.(phase := Aborting(t.phase.left - 1));
    UndoCell(s, i, t.phase.left - 1);
    PhaseCells(s, t, t', s.mode.cl);
    RegionsReplace(s.cur.log, |s.spec|, (s.cur.head, s.dur.head), (s.cur.tail, s.dur.tail), s.mode.txs, s.mode.cl, i,
        t');
    CellsReplace(s.cur.log, s.dur.log, s.dur.head, s.mode.txs, s.mode.cl, i, t');
  }

  lemma UndoOneData(s: State, i: nat)
    requires Inv(s) && CanUndoOne(s, i)
    ensures var t, k := s.mode.txs[i], s.mode.txs[i].phase.left - 1;
            && (t.ents[k].live ==> t.ents[k].addr + |t.ents[k].saved| <= |s.cur.data|)
            && Data(Undo(t.ents[k], s.cur.data), s.dur.data, s.spec, s.mode.txs[i := t.(phase := Aborting(k))])
  {
    var t := s.mode.txs[i];
    var k := t.phase.left - 1;
    UndoCell(s, i, k);
    var data := Undo(t.ents[k], s.cur.data);
    UndoKeeps(s, t, k, data);
    UndoData(s.cur.data, data, s.dur.data, s.spec, s.mode.txs, i, t.(phase := Aborting(k)));
  }

  lemma UndoCell(s: State, i: nat, k: nat)
    requires Inv(s) && TxAt(s, i) && s.mode.txs[i].phase == Aborting(k + 1)
    ensures var t := s.mode.txs[i];
            && TxOK(t, s.cur.log, |s.spec|) && k < |t.ents| && s.cur.log[t.lo + k] == t.ents[k]
            && TxCells(s.cur.log, s.dur.log, s.dur.head, t, s.mode.cl)
            && SavesSpec(t, s.spec) && PhaseData(s.cur.data, s.dur.data, s.spec, t)
            && (t.fenced > 0 ==> t.lo + t.cap <= s.dur.tail)
            && !Straddles(t, s.cur.head) && !Straddles(t, s.dur.head)
            && forall a | Covers(t.ents[k], a) :: Writable(t, a)
  {
    var t := s.mode.txs[i];
    assert TxOK(t, s.cur.log, |s.spec|);
    assert CellOK(s.cur.log, s.dur.log, s.dur.head, t, k, s.mode.cl);
  }

  lemma UndoData(cdata: seq<Byte>, cdata': seq<Byte>, ddata: seq<Byte>, spec: seq<Byte>, txs: seq<Tx>, i: nat, t': Tx)
    requires Data(cdata, ddata, spec, txs) && i < |txs| && txs[i].phase.Aborting? && t'.phase.Aborting?
    requires t' == txs[i].(phase := t'.phase) && |cdata'| == |cdata| && PhaseData(cdata', ddata, spec, t')
    requires forall a | 0 <= a < |spec| && cdata'[a] != cdata[a] :: Writable(txs[i], a)
    ensures Data(cdata', ddata, spec, txs[i := t'])
  {
    // read the transaction as still running while the bytes change
    var r := txs[i].(phase := Running);
    DataReplace(cdata, ddata, spec, txs, i, r);
    WriteData(cdata, cdata', ddata, spec, txs[i := r], i);
    DataReplace(cdata', ddata, spec, txs[i := r], i, t');
    assert txs[i := r][i := t'] == txs[i := t'];
  }

  /** Undoing entry `k` settles the bytes that no earlier entry saved. */
  lemma UndoKeeps(s: State, t: Tx, k: nat, data: seq<Byte>)
    requires Shape(s) && t.phase == Aborting(k + 1) && k < |t.ents| == t.fenced
    requires SavesSpec(t, s.spec) && PhaseData(s.cur.data, s.dur.data, s.spec, t)
    requires t.ents[k].live ==> t.ents[k].addr + |t.ents[k].saved| <= |s.spec|
    requires data == Undo(t.ents[k], s.cur.data)
    ensures PhaseData(data, s.dur.data, s.spec, t.(phase := Aborting(k)))
  {
    forall a | 0 <= a < |s.spec| && Covered(t.ents, |t.ents|, a) && !Covered(t.ents, k, a)
      ensures data[a] == s.spec[a]
    {
      if !Covers(t.ents[k], a) { assert !Covered(t.ents, k + 1, a); }
    }
  }

  // ------------------------------------------------------ storing a record

  ghost predicate Extends(t: Tx, t': Tx, c: Cell) {
    t'.lo == t.lo && t'.cap == t.cap && t'.fenced == t.fenced && t'.ents == t.ents + [c]
  }

  /** What Append needs of the record and the new phase, apart from the data. */
  ghost predicate Appendable(s: State, i: nat, c: Cell, phase: Phase)
    requires Shape(s)
  {
    && TxAt(s, i) && Unsealed(s.mode.txs[i]) && !s.mode.txs[i].phase.Sealing?
    && var t := s.mode.txs[i];
    && |t.ents| < t.cap
    && c.live && (c.start <==> t.ents == []) && c.edge == s.cur.log[t.lo + |t.ents|].edge
    && c.addr + |c.saved| <= |s.spec| && (c.fin ==> c.saved == [])
    && (c.fin <==> phase.Sealing?) && (phase.Running? || phase.Sealing?)
    && (phase.Sealing? ==> t.fenced == |t.ents| && t.lo + t.cap <= s.dur.tail)
  }

  lemma AppendTxOK(s: State, i: nat, c: Cell, phase: Phase)
    requires Inv(s) && Appendable(s, i, c, phase)
    ensures var s' := Append(s, i, c, phase);
            && TxOK(s'.mode.txs[i], s'.cur.log, |s.spec|)
            && !Straddles(s'.mode.txs[i], s.cur.head) && !Straddles(s'.mode.txs[i], s.dur.head)
  {
    var t := s.mode.txs[i];
    assert TxOK(t, s.cur.log, |s.spec|);
  }

  lemma EdgesFrame(t: Tx, log: seq<Cell>, log': seq<Cell>, size: nat)
    requires TxOK(t, log, size) && |log'| >= |log|
    requires forall p | t.lo <= p < t.lo + t.cap :: log'[p].edge == log[p].edge
    ensures TxOK(t, log', size)
  {
  }

  lemma RegionsEdges(log: seq<Cell>, log': seq<Cell>, size: nat, heads: (nat, nat), tails: (nat, nat), txs: seq<Tx>,
                     cl: nat)
    requires Regions(log, size, heads, tails, txs, cl) && |log'| == |log|
    requires forall p | 0 <= p < |log| :: log'[p].edge == log[p].edge
    ensures Regions(log', size, heads, tails, txs, cl)
  {
    forall i | 0 <= i < |txs| ensures TxOK(txs[i], log', size) { EdgesFrame(txs[i], log, log', size); }
  }

  lemma AppendRegions(s: State, i: nat, c: Cell, phase: Phase)
    requires Inv(s) && Appendable(s, i, c, phase)
    ensures var s' := Append(s, i, c, phase);
            Regions(s'.cur.log, |s.spec|, (s.cur.head, s.dur.head), (s.cur.tail, s.dur.tail), s'.mode.txs, s.mode.cl)
  {
    hide Cells, Data;
    var s' := Append(s, i, c, phase);
    AppendTxOK(s, i, c, phase);
    RegionsEdges(s.cur.log, s'.cur.log, |s.spec|, (s.cur.head, s.dur.head), (s.cur.tail, s.dur.tail), s.mode.txs,
        s.mode.cl);
    RegionsReplace(s'.cur.log, |s.spec|, (s.cur.head, s.dur.head), (s.cur.tail, s.dur.tail), s.mode.txs, s.mode.cl, i,
        s'.mode.txs[i]);
  }

  lemma AppendOwnCells(s: State, i: nat, c: Cell, phase: Phase)
    requires Inv(s) && Appendable(s, i, c, phase)
    ensures var s' := Append(s, i, c, phase);
            TxCells(s'.cur.log, s.dur.log, s.dur.head, s'.mode.txs[i], s.mode.cl)
  {
    hide Data;
    var s' := Append(s, i, c, phase);
    var t, t' := s.mode.txs[i], s'.mode.txs[i];
    assert TxOK(t, s.cur.log, |s.spec|);
    assert TxCells(s.cur.log, s.dur.log, s.dur.head, t, s.mode.cl);
    var p := t.lo + |t.ents|;
    NotOwned(s, i);
    forall k | 0 <= k < |t'.ents| ensures CellOK(s'.cur.log, s.dur.log, s.dur.head, t', k, s.mode.cl) {
      if k < |t.ents| { assert CellOK(s.cur.log, s.dur.log, s.dur.head, t, k, s.mode.cl); }
    }
  }

  /** The next free slot of an open transaction holds nothing. */
  lemma NotOwned(s: State, i: nat)
    requires Inv(s) && TxAt(s, i) && |s.mode.txs[i].ents| < s.mode.txs[i].cap && Unsealed(s.mode.txs[i])
    ensures var p := s.mode.txs[i].lo + |s.mode.txs[i].ents|; !s.dur.log[p].live && !s.cur.log[p].live
  {
    hide Data;
    var txs := s.mode.txs;
    var p := txs[i].lo + |txs[i].ents|;
    forall j | 0 <= j < |txs| ensures !Owns(txs[j], p) {
      if i != j {
        Apart(s.cur.log, |s.spec|, (s.cur.head, s.dur.head), (s.cur.tail, s.dur.tail), txs, s.mode.cl, i, j);
      }
    }
  }

  lemma AppendCells(s: State, i: nat, c: Cell, phase: Phase)
    requires Inv(s) && Appendable(s, i, c, phase)
    ensures var s' := Append(s, i, c, phase);
            Cells(s'.cur.log, s.dur.log, s.dur.head, s'.mode.txs, s.mode.cl)
  {
    hide Data;
    var s' := Append(s, i, c, phase);
    var txs, txs', cl := s.mode.txs, s'.mode.txs, s.mode.cl;
    var t, t' := txs[i], txs'[i];
    var q := t.lo + |t.ents|;
    forall j | 0 <= j < |txs'| ensures TxCells(s'.cur.log, s.dur.log, s.dur.head, txs'[j], cl) {
      if j == i {
        AppendOwnCells(s, i, c, phase);
      } else {
        Apart(s.cur.log, |s.spec|, (s.cur.head, s.dur.head), (s.cur.tail, s.dur.tail), txs, cl, i, j);
        TxCellsFrame(s.cur.log, s.dur.log, s'.cur.log, s.dur.log, s.dur.head, txs[j], cl);
      }
    }
    forall p | s.dur.head <= p < |s.cur.log| && (s'.cur.log[p].live || s.dur.log[p].live) ensures Owned(txs', p) {
      if p == q {
        assert Owns(txs'[i], q);
      } else {
        OwnedReplace(txs, i, t', p);
      }
    }
  }

  lemma AppendData(s: State, i: nat, c: Cell, phase: Phase)
    requires Inv(s) && Appendable(s, i, c, phase)
    requires forall a, j | 0 <= j < |s.mode.txs| && j != i && Unsealed(s.mode.txs[j]) && Covers(c, a) ::
               !Covered(s.mode.txs[j].ents, |s.mode.txs[j].ents|, a)
    requires forall a | 0 <= a < |s.spec| && Covers(c, a) && !Writable(s.mode.txs[i], a) ::
               c.saved[a - c.addr] == s.spec[a]
    requires phase.Sealing? ==> forall a | 0 <= a < |s.spec| && Writable(s.mode.txs[i], a) ::
               s.cur.data[a] == s.dur.data[a] && (!phase.commit ==> s.cur.data[a] == s.spec[a])
    ensures Data(s.cur.data, s.dur.data, s.spec, Append(s, i, c, phase).mode.txs)
  {
    hide Regions, Cells;
    var t := s.mode.txs[i];
    var t' := t.(ents := t.ents + [c], phase := phase);
    var txs, txs' := s.mode.txs, s.mode.txs[i := t'];
    forall n, a | 0 <= n <= |t.ents| ensures Covered(t'.ents, n, a) <==> Covered(t.ents, n, a) {
      CoveredSnoc(t.ents, c, n, a);
    }
    forall a | 0 <= a < |s.spec| && Idle(txs', a) ensures Idle(txs, a) { IdleReplace(txs, i, t', a); }
    assert SavesSpec(t, s.spec);
    AppendSaves(t, c, phase, s.spec);
    forall x, y | 0 <= x < y < |txs| && Unsealed(txs'[x]) && Unsealed(txs'[y]) ensures Disjoint(txs'[x], txs'[y]) {
      assert Disjoint(txs[x], txs[y]);
      forall a: nat ensures !(Covered(txs'[x].ents, |txs'[x].ents|, a) && Covered(txs'[y].ents, |txs'[y].ents|, a)) {
        CoveredSnoc(t.ents, c, |t.ents|, a);
      }
    }
  }

  lemma AppendSaves(t: Tx, c: Cell, phase: Phase, spec: seq<Byte>)
    requires t.fenced <= |t.ents| && SavesSpec(t, spec)
    requires forall a | 0 <= a < |spec| && Covers(c, a) && !Writable(t, a) :: c.saved[a - c.addr] == spec[a]
    ensures SavesSpec(t.(ents := t.ents + [c], phase := phase), spec)
  {
    var t' := t.(ents := t.ents + [c], phase := phase);
    forall k, a | 0 <= k < |t'.ents| && 0 <= a < |spec| && Covers(t'.ents[k], a)
                  && !Covered(t'.ents, if k < t.fenced then k else t.fenced, a)
      ensures t'.ents[k].saved[a - t'.ents[k].addr] == spec[a]
    {
      CoveredSnoc(t.ents, c, if k < t.fenced then k else t.fenced, a);
      if k < |t.ents| { assert t'.ents[k] == t.ents[k]; }
    }
  }

  lemma AppendInv(s: State, i: nat, c: Cell, phase: Phase)
    requires Inv(s) && Appendable(s, i, c, phase)
    requires Data(s.cur.data, s.dur.data, s.spec, Append(s, i, c, phase).mode.txs)
    ensures Inv(Append(s, i, c, phase))
  {
    AppendRegions(s, i, c, phase);
    AppendCells(s, i, c, phase);
    hide Regions, Cells, Data;
  }

  lemma StepLogData(s: State, i: nat, addr: nat, len: nat)
    requires Inv(s) && CanLogData(s, i, addr, len)
    ensures Inv(DoLogData(s, i, addr, len))
  {
    hide Cells, Data, RecoveringInv, ForwardingInv;
    var t := s.mode.txs[i];
    var c := Cell(s.cur.log[t.lo + |t.ents|].edge, true, t.ents == [], false, addr, s.cur.data[addr..addr + len]);
    forall a | 0 <= a < |s.spec| && Covers(c, a) && !Writable(t, a) ensures c.saved[a - c.addr] == s.spec[a] {
      LoggedIsSpec(s, i, a);
    }
    AppendData(s, i, c, Running);
    AppendInv(s, i, c, Running);
  }

  /** A byte no open transaction has saved still has its committed value. */
  lemma LoggedIsSpec(s: State, i: nat, a: nat)
    requires Inv(s) && TxAt(s, i) && a < |s.spec| && !Writable(s.mode.txs[i], a)
    requires forall j | 0 <= j < |s.mode.txs| && j != i && Unsealed(s.mode.txs[j]) ::
               !Covered(s.mode.txs[j].ents, |s.mode.txs[j].ents|, a)
    ensures s.cur.data[a] == s.spec[a]
  {
    hide Regions, Cells;
    var txs := s.mode.txs;
    forall j | 0 <= j < |txs| && Unsealed(txs[j]) ensures !Writable(txs[j], a) {
      assert j != i ==> !Covered(txs[j].ents, |txs[j].ents|, a);
    }
    assert Idle(txs, a);
  }

  lemma StepSealCommit(s: State, i: nat)
    requires Inv(s) && CanSealCommit(s, i)
    ensures Inv(DoSeal(s, i, true))
  {
    AppendData(s, i, Closing(s, i), Sealing(true));
    AppendInv(s, i, Closing(s, i), Sealing(true));
  }

  lemma StepSealAbort(s: State, i: nat)
    requires Inv(s) && CanSealAbort(s, i)
    ensures Inv(DoSeal(s, i, false))
  {
    var t := s.mode.txs[i];
    AbortedData(s, i);
    AppendData(s, i, Closing(s, i), Sealing(false));
    AppendInv(s, i, Closing(s, i), Sealing(false));
  }

  /** Once every entry is undone the bytes have their committed values back. */
  lemma AbortedData(s: State, i: nat)
    requires Inv(s) && CanSealAbort(s, i)
    ensures forall a | 0 <= a < |s.spec| && Writable(s.mode.txs[i], a) ::
              s.cur.data[a] == s.dur.data[a] == s.spec[a]
    ensures s.mode.txs[i].fenced == |s.mode.txs[i].ents|
  {
    hide Cells;
    var t := s.mode.txs[i];
    assert TxOK(t, s.cur.log, |s.spec|);
    assert PhaseData(s.cur.data, s.dur.data, s.spec, t);
    assert forall a :: !Covered(t.ents, 0, a);
  }

  // ------------------------------------------------------------ persistence

  lemma StepPersistByte(s: State, a: nat)
    requires Inv(s) && a < |s.spec|
    ensures Inv(DoPersistByte(s, a))
  {
    match s.mode
    case Mounted(txs, cl) =>
      hide Regions, Cells, Shape;
      PersistByteData(s.cur.data, s.dur.data, s.spec, txs, a);
    case _ =>
      hide Undone;
      RestoresByte(s.dur.log, s.dur.head, s.dur.tail, s.dur.data, s.dur.data[a := s.cur.data[a]], s.spec);
  }

  lemma PersistByteData(cdata: seq<Byte>, ddata: seq<Byte>, spec: seq<Byte>, txs: seq<Tx>, a: nat)
    requires Data(cdata, ddata, spec, txs) && a < |spec|
    ensures Data(cdata, ddata[a := cdata[a]], spec, txs)
  {
    forall i | 0 <= i < |txs| && Unsealed(txs[i]) ensures PhaseData(cdata, ddata[a := cdata[a]], spec, txs[i]) {
      assert PhaseData(cdata, ddata, spec, txs[i]);
    }
  }

  /** Only the bytes that recovery will not touch matter in a crash image. */
  lemma RestoresByte(log: seq<Cell>, lo: nat, hi: nat, data: seq<Byte>, data': seq<Byte>, want: seq<Byte>)
    requires hi <= |log| && Restores(log, lo, hi, data, want) && |data'| == |data|
    requires forall a | 0 <= a < |data| && Untouched(log, lo, hi, a) :: data'[a] == data[a]
    ensures Restores(log, lo, hi, data', want)
  {
  }

  lemma StepPersistHeader(s: State)
    requires Inv(s)
    ensures Inv(DoPersistHeader(s))
  {
    match s.mode
    case Mounted(txs, cl) =>
      HeaderCells(s.cur.log, s.dur.log, s.dur.head, s.cur.head, txs, cl);
      HeaderRegions(s, txs, cl);
      hide Regions, Cells, Data;
    case Recovering(i) =>
      assert DoPersistHeader(s) == s;
    case Forwarding =>
  }

  lemma HeaderRegions(s: State, txs: seq<Tx>, cl: nat)
    requires Shape(s) && MountedInv(s, txs, cl)
    ensures Regions(s.cur.log, |s.spec|, (s.cur.head, s.cur.head), (s.cur.tail, s.cur.tail), txs, cl)
  {
    hide Cells, Data;
    forall i | 0 <= i < |txs| ensures txs[i].lo + txs[i].cap <= s.cur.tail {
      assert TxOK(txs[i], s.cur.log, |s.spec|);
    }
  }

  lemma HeaderCells(clog: seq<Cell>, dlog: seq<Cell>, dhead: nat, dhead': nat, txs: seq<Tx>, cl: nat)
    requires Cells(clog, dlog, dhead, txs, cl) && dhead <= dhead'
    ensures Cells(clog, dlog, dhead', txs, cl)
  {
    forall i | 0 <= i < |txs| ensures TxCells(clog, dlog, dhead', txs[i], cl) {
      forall k | 0 <= k < |txs[i].ents| ensures CellOK(clog, dlog, dhead', txs[i], k, cl) {
        assert CellOK(clog, dlog, dhead, txs[i], k, cl);
      }
    }
  }

  lemma StepPersistSlot(s: State, p: nat)
    requires Inv(s) && CanPersistSlot(s, p)
    ensures Inv(DoPersistSlot(s, p))
  {
    match s.mode
    case Mounted(txs, cl) =>
      PersistSlotCells(s, p);
      hide Regions, Cells, Data;
      assert Shape(DoPersistSlot(s, p));
    case Recovering(i) =>
      if s.cur.log[p] == s.dur.log[p] {
        assert s.dur.log[p := s.cur.log[p]] == s.dur.log;
      } else {
        StepPersistWipe(s, i, p);
      }
    case Forwarding =>
      assert s.dur.log[p := s.cur.log[p]] == s.dur.log;
  }

  /** A wiped slot becomes persistent: a recovery that starts over undoes the same records as
      before, or, when a start record goes, all but those of its transaction. */
  lemma StepPersistWipe(s: State, i: nat, p: nat)
    requires Inv(s) && s.mode == Recovering(i) && p < |s.cur.log| && CanWipe(s, i, p) && s.cur.log[p] != s.dur.log[p]
    ensures Inv(DoPersistSlot(s, p))
  {
    hide Undone, Restores, Untouched, Unreached, GroupsApart;
    var log, lo, hi := s.dur.log, s.dur.head, s.dur.tail;
    var log' := Wiped(log, p);
    assert s.dur.log[p := s.cur.log[p]] == log';
    UndoneFrame(s.cur.log, log, lo, i);
    SameRestores(s.cur.log, i, log, i, lo, s.cur.data, s.spec);
    ApartStays(log, lo, hi, p);
    if Undone(log, lo, hi, p) {
      UndoneIn(log, lo, hi, p);
      RestoresUntouched(log, lo, p, s.dur.data, s.spec);
      WipeStart(log, lo, hi, p, s.dur.data, s.spec);
    } else {
      WipeOther(log, lo, hi, p);
      SameRestores(log, hi, log', hi, lo, s.dur.data, s.spec);
    }
  }

  lemma RestoresUntouched(log: seq<Cell>, lo: nat, hi: nat, data: seq<Byte>, want: seq<Byte>)
    requires hi <= |log| && Restores(log, lo, hi, data, want)
    ensures forall a: nat | a < |data| && Untouched(log, lo, hi, a) :: data[a] == want[a]
  {
  }

  lemma PersistSlotCells(s: State, p: nat)
    requires Inv(s) && CanPersistSlot(s, p) && s.mode.Mounted?
    ensures Cells(s.cur.log, s.dur.log[p := s.cur.log[p]], s.dur.head, s.mode.txs, s.mode.cl)
  {
    hide Data;
    var txs, cl := s.mode.txs, s.mode.cl;
    forall i | 0 <= i < |txs| ensures TxCells(s.cur.log, s.dur.log[p := s.cur.log[p]], s.dur.head, txs[i], cl) {
      PersistSlotTx(s.cur.log, s.dur.log, s.dur.head, txs[i], cl, p);
    }
  }

  lemma PersistSlotTx(clog: seq<Cell>, dlog: seq<Cell>, dhead: nat, t: Tx, cl: nat, p: nat)
    requires TxCells(clog, dlog, dhead, t, cl) && p < |clog|
    requires t.phase.Sealing? ==> p != t.lo + |t.ents| - 1
    requires t.phase.Sealed? ==> t.fenced == |t.ents|
    ensures TxCells(clog, dlog[p := clog[p]], dhead, t, cl)
  {
    var dlog' := dlog[p := clog[p]];
    forall k | 0 <= k < |t.ents| ensures CellOK(clog, dlog', dhead, t, k, cl) {
      assert CellOK(clog, dlog, dhead, t, k, cl) && CellOK(clog, dlog, dhead, t, 0, cl);
    }
  }

  lemma StepPersistSeal(s: State, i: nat)
    requires Inv(s) && CanPersistSeal(s, i)
    ensures Inv(DoPersistSeal(s, i))
  {
    var t := s.mode.txs[i];
    SealRegions(s, i);
    SealCells(s, i);
    SealShape(s, i);
    if t.phase.commit { SealCommitData(s, i); } else { SealAbortData(s, i); }
    hide Regions, Cells, Data;
  }

  lemma SealShape(s: State, i: nat)
    requires Inv(s) && CanPersistSeal(s, i)
    ensures Shape(DoPersistSeal(s, i))
  {
    hide Regions, Cells, Data;
  }

  lemma SealRegions(s: State, i: nat)
    requires Inv(s) && CanPersistSeal(s, i)
    ensures Regions(s.cur.log, |s.spec|, (s.cur.head, s.dur.head), (s.cur.tail, s.dur.tail),
              DoPersistSeal(s, i).mode.txs, s.mode.cl)
  {
    hide Cells, Data;
    var t := s.mode.txs[i];
    assert TxOK(t, s.cur.log, |s.spec|);
    RegionsReplace(s.cur.log, |s.spec|, (s.cur.head, s.dur.head), (s.cur.tail, s.dur.tail), s.mode.txs, s.mode.cl, i,
                   t.(fenced := |t.ents|, phase := Sealed));
  }

  lemma SealOwnCells(s: State, i: nat)
    requires Inv(s) && CanPersistSeal(s, i)
    ensures TxCells(s.cur.log, DoPersistSeal(s, i).dur.log, s.dur.head, DoPersistSeal(s, i).mode.txs[i], s.mode.cl)
  {
    hide Data;
    var t := s.mode.txs[i];
    var t' := t.(fenced := |t.ents|, phase := Sealed);
    var dlog' := DoPersistSeal(s, i).dur.log;
    assert TxOK(t, s.cur.log, |s.spec|) && TxCells(s.cur.log, s.dur.log, s.dur.head, t, s.mode.cl);
    forall k | 0 <= k < |t.ents| ensures CellOK(s.cur.log, dlog', s.dur.head, t', k, s.mode.cl) {
      assert CellOK(s.cur.log, s.dur.log, s.dur.head, t, k, s.mode.cl);
    }
  }

  lemma SealCells(s: State, i: nat)
    requires Inv(s) && CanPersistSeal(s, i)
    ensures Cells(s.cur.log, DoPersistSeal(s, i).dur.log, s.dur.head, DoPersistSeal(s, i).mode.txs, s.mode.cl)
  {
    hide Data;
    var txs, cl := s.mode.txs, s.mode.cl;
    var t := txs[i];
    var t' := t.(fenced := |t.ents|, phase := Sealed);
    var p := t.lo + |t.ents| - 1;
    var dlog' := s.dur.log[p := s.cur.log[p]];
    var txs' := txs[i := t'];
    forall j | 0 <= j < |txs'| ensures TxCells(s.cur.log, dlog', s.dur.head, txs'[j], cl) {
      if j == i {
        SealOwnCells(s, i);
      } else {
        Apart(s.cur.log, |s.spec|, (s.cur.head, s.dur.head), (s.cur.tail, s.dur.tail), txs, cl, i, j);
        TxCellsFrame(s.cur.log, s.dur.log, s.cur.log, dlog', s.dur.head, txs[j], cl);
      }
    }
    forall q | s.dur.head <= q < |s.cur.log| && (s.cur.log[q].live || dlog'[q].live) ensures Owned(txs', q) {
      if q == p { assert Owns(txs[i], p); }
      OwnedReplace(txs, i, t', q);
    }
  }

  /** The bytes of the transaction that takes effect are all persistent. */
  lemma SealedBytes(s: State, i: nat)
    requires Inv(s) && CanPersistSeal(s, i)
    ensures var t := s.mode.txs[i];
            && t.fenced == |t.ents| - 1
            && (forall a :: Covered(t.ents, |t.ents|, a) <==> Writable(t, a))
            && (forall a | 0 <= a < |s.spec| && Writable(t, a) ::
                  s.cur.data[a] == s.dur.data[a] && (!t.phase.commit ==> s.cur.data[a] == s.spec[a]))
  {
    hide Cells;
    var t := s.mode.txs[i];
    assert TxOK(t, s.cur.log, |s.spec|);
    assert PhaseData(s.cur.data, s.dur.data, s.spec, t);
    forall a ensures Covered(t.ents, |t.ents|, a) <==> Writable(t, a) {
      assert !Covers(t.ents[|t.ents| - 1], a);
      if Covered(t.ents, |t.ents|, a) {
        var k :| 0 <= k < |t.ents| && Covers(t.ents[k], a);
        assert k < t.fenced;
      }
    }
  }

  lemma SealedIdle(txs: seq<Tx>, i: nat, t: Tx, a: nat)
    requires i < |txs| && (forall j | 0 <= j < |txs| :: txs[j].fenced <= |txs[j].ents|)
    requires t.phase.Sealed? && t.fenced <= |t.ents| && Idle(txs[i := t], a) && !Writable(txs[i], a)
    ensures Idle(txs, a)
  {
    forall j | 0 <= j < |txs| && Unsealed(txs[j]) ensures !Writable(txs[j], a) {
      if j != i { assert txs[i := t][j] == txs[j]; }
    }
  }

  lemma SealAbortData(s: State, i: nat)
    requires Inv(s) && CanPersistSeal(s, i) && !s.mode.txs[i].phase.commit
    ensures Data(s.cur.data, s.dur.data, s.spec, DoPersistSeal(s, i).mode.txs)
  {
    SealedBytes(s, i);
    hide Regions, Cells;
    var t := s.mode.txs[i];
    var t' := t.(fenced := |t.ents|, phase := Sealed);
    var txs, txs' := s.mode.txs, s.mode.txs[i := t'];
    forall a | 0 <= a < |s.spec| && Idle(txs', a) ensures s.cur.data[a] == s.dur.data[a] == s.spec[a] {
      if !Writable(t, a) { SealedIdle(txs, i, t', a); }
    }
  }

  lemma SealCommitData(s: State, i: nat)
    requires Inv(s) && CanPersistSeal(s, i) && s.mode.txs[i].phase.commit
    ensures Data(s.cur.data, s.dur.data, DoPersistSeal(s, i).spec, DoPersistSeal(s, i).mode.txs)
  {
    SealedBytes(s, i);
    hide Regions, Cells;
    var t := s.mode.txs[i];
    var t' := t.(fenced := |t.ents|, phase := Sealed);
    var txs, txs' := s.mode.txs, s.mode.txs[i := t'];
    var spec' := Overlay(s.spec, s.cur.data, t.ents);
    forall a | 0 <= a < |s.spec| && Idle(txs', a) ensures s.cur.data[a] == s.dur.data[a] == spec'[a] {
      if !Writable(t, a) { SealedIdle(txs, i, t', a); }
    }
    forall j | 0 <= j < |txs'| && Unsealed(txs'[j])
      ensures SavesSpec(txs'[j], spec') && PhaseData(s.cur.data, s.dur.data, spec', txs'[j])
    {
      assert Disjoint(txs[i], txs[j]) || Disjoint(txs[j], txs[i]);
      OthersSpec(s, t, txs[j], spec');
    }
  }

  /** A commit leaves the committed values of other open transactions' bytes alone. */
  lemma OthersSpec(s: State, t: Tx, u: Tx, spec': seq<Byte>)
    requires Shape(s) && spec' == Overlay(s.spec, s.cur.data, t.ents) && u.fenced <= |u.ents|
    requires Disjoint(t, u) || Disjoint(u, t)
    requires SavesSpec(u, s.spec) && PhaseData(s.cur.data, s.dur.data, s.spec, u)
    ensures SavesSpec(u, spec') && PhaseData(s.cur.data, s.dur.data, spec', u)
  {
    forall a, n | 0 <= a < |s.spec| && 0 <= n <= |u.ents| && Covered(u.ents, n, a) ensures spec'[a] == s.spec[a] {
      CoveredGrows(u.ents, n, |u.ents|, a);
    }
    forall a, k | 0 <= a < |s.spec| && 0 <= k < |u.ents| && Covers(u.ents[k], a) ensures spec'[a] == s.spec[a] {
      assert Covered(u.ents, |u.ents|, a);
    }
  }

  // ------------------------------------------------------------ the cleaner

  lemma StepCleanSlot(s: State, scrub: bool)
    requires Inv(s) && CanCleanSlot(s, scrub)
    ensures Inv(DoCleanSlot(s, scrub))
  {
    CleanSlotRegions(s, scrub);
    CleanSlotCells(s, scrub);
    hide Regions, Cells, Data;
  }

  lemma CleanSlotRegions(s: State, scrub: bool)
    requires Inv(s) && CanCleanSlot(s, scrub)
    ensures Regions(DoCleanSlot(s, scrub).cur.log, |s.spec|, (s.cur.head, s.dur.head), (s.cur.tail, s.dur.tail),
              s.mode.txs, s.mode.cl + 1)
  {
    hide Cells, Data;
    RegionsEdges(s.cur.log, DoCleanSlot(s, scrub).cur.log, |s.spec|, (s.cur.head, s.dur.head),
        (s.cur.tail, s.dur.tail), s.mode.txs, s.mode.cl);
  }

  lemma CleanSlotCells(s: State, scrub: bool)
    requires Inv(s) && CanCleanSlot(s, scrub)
    ensures Cells(DoCleanSlot(s, scrub).cur.log, s.dur.log, s.dur.head, s.mode.txs, s.mode.cl + 1)
  {
    hide Data;
    var txs, cl := s.mode.txs, s.mode.cl;
    var clog', cl' := DoCleanSlot(s, scrub).cur.log, cl + 1;
    forall i | 0 <= i < |txs| ensures TxCells(clog', s.dur.log, s.dur.head, txs[i], cl') {
      var t := txs[i];
      assert TxCells(s.cur.log, s.dur.log, s.dur.head, t, cl);
      forall k | 0 <= k < |t.ents| ensures CellOK(clog', s.dur.log, s.dur.head, t, k, cl') {
        assert CellOK(s.cur.log, s.dur.log, s.dur.head, t, k, cl);
        if t.lo + k == cl && scrub { assert Owns(t, cl); }
      }
    }
  }

  lemma StepCleanHead(s: State)
    requires Inv(s) && CanCleanHead(s)
    ensures Inv(DoCleanHead(s))
  {
    hide Cells, Data;
  }

  // ------------------------------------------------------------ reservation

  lemma StepReserve(s: State, pad: seq<bool>, edge: bool, cap: nat)
    requires Inv(s) && CanReserve(s, cap)
    ensures Inv(DoReserve(s, pad, edge, cap))
  {
    ReserveShape(s, pad, edge, cap);
    ReserveRegions(s, pad, edge, cap);
    ReserveCells(s, pad, edge, cap);
    ReserveData(s, pad, edge, cap);
    hide Regions, Cells, Data;
  }

  lemma ReserveShape(s: State, pad: seq<bool>, edge: bool, cap: nat)
    requires Inv(s) && CanReserve(s, cap)
    ensures Shape(DoReserve(s, pad, edge, cap))
  {
    hide Regions, Cells, Data;
  }

  lemma ReserveRegions(s: State, pad: seq<bool>, edge: bool, cap: nat)
    requires Inv(s) && CanReserve(s, cap)
    ensures var s' := DoReserve(s, pad, edge, cap);
            Regions(s'.cur.log, |s.spec|, (s.cur.head, s.dur.head), (s'.cur.tail, s.dur.tail), s'.mode.txs, s.mode.cl)
  {
    hide Cells, Data;
    var s' := DoReserve(s, pad, edge, cap);
    var txs, txs' := s.mode.txs, s'.mode.txs;
    forall i | 0 <= i < |txs'| ensures TxOK(txs'[i], s'.cur.log, |s.spec|) {
      if i < |txs| {
        assert TxOK(txs[i], s.cur.log, |s.spec|);
        EdgesFrame(txs[i], s.cur.log, s'.cur.log, |s.spec|);
      }
    }
  }

  lemma ReserveCells(s: State, pad: seq<bool>, edge: bool, cap: nat)
    requires Inv(s) && CanReserve(s, cap)
    ensures var s' := DoReserve(s, pad, edge, cap);
            Cells(s'.cur.log, s'.dur.log, s.dur.head, s'.mode.txs, s.mode.cl)
  {
    hide Data;
    var s' := DoReserve(s, pad, edge, cap);
    var txs, txs' := s.mode.txs, s'.mode.txs;
    forall i | 0 <= i < |txs'| ensures TxCells(s'.cur.log, s'.dur.log, s.dur.head, txs'[i], s.mode.cl) {
      if i < |txs| {
        assert TxCells(s.cur.log, s.dur.log, s.dur.head, txs[i], s.mode.cl);
        TxCellsFrame(s.cur.log, s.dur.log, s'.cur.log, s'.dur.log, s.dur.head, txs[i], s.mode.cl);
      }
    }
    forall p | s.dur.head <= p < |s'.cur.log| && (s'.cur.log[p].live || s'.dur.log[p].live) ensures Owned(txs', p) {
      assert p < |s.cur.log|;
      assert s'.cur.log[p] == s.cur.log[p] && s'.dur.log[p] == s.dur.log[p];
      var i :| 0 <= i < |txs| && Owns(txs[i], p);
      assert Owns(txs'[i], p);
    }
  }

  lemma ReserveData(s: State, pad: seq<bool>, edge: bool, cap: nat)
    requires Inv(s) && CanReserve(s, cap)
    ensures Data(s.cur.data, s.dur.data, s.spec, DoReserve(s, pad, edge, cap).mode.txs)
  {
    hide Regions, Cells;
    var txs, txs' := s.mode.txs, DoReserve(s, pad, edge, cap).mode.txs;
    forall a | 0 <= a < |s.spec| && Idle(txs', a) ensures Idle(txs, a) {
      forall i | 0 <= i < |txs| && Unsealed(txs[i]) ensures !Writable(txs[i], a) { assert txs'[i] == txs[i]; }
    }
  }

  // ----------------------------------------------------- crash and recovery

  /** Whatever the mode, the persistent image recovers to the committed state. */
  lemma InvRestores(s: State)
    requires Inv(s)
    ensures Restores(s.dur.log, s.dur.head, s.dur.tail, s.dur.data, s.spec)
  {
    if s.mode.Mounted? {
      hide Regions, Cells, Data;
      MountedRestores(s, s.mode.txs, s.mode.cl);
    }
  }

  lemma InvApart(s: State)
    requires Inv(s)
    ensures GroupsApart(s.dur.log, s.dur.head, s.dur.tail)
  {
    if s.mode.Mounted? {
      hide Regions, Cells, Data, GroupsApart;
      MountedApart(s, s.mode.txs, s.mode.cl);
    }
  }

  lemma StepCrash(s: State)
    requires Inv(s) && CanCrash(s)
    ensures Inv(DoCrash(s))
  {
    InvRestores(s);
    InvApart(s);
    if s.dur.head == s.dur.tail {
      forall a | 0 <= a < |s.spec| ensures s.dur.data[a] == s.spec[a] {
        assert Untouched(s.dur.log, s.dur.head, s.dur.tail, a);
      }
    }
  }

  lemma StepRecUndo(s: State)
    requires Inv(s) && CanRecUndo(s)
    ensures Inv(DoRecUndo(s))
  {
    hide Undone, Restores, Untouched;
    var i, lo := s.mode.i, s.cur.head;
    UndoTop(s.cur.log, lo, i, s.cur.data, s.spec);
    var data' := Undo(s.cur.log[i - 1], s.cur.data);
    forall a: nat | a < |s.spec| && Untouched(s.dur.log, s.dur.head, s.dur.tail, a) ensures data'[a] == s.spec[a] {
      NotCovered(s.dur.log, s.dur.head, s.dur.tail, i - 1, a);
    }
  }

  lemma NotCovered(log: seq<Cell>, lo: nat, hi: nat, p: nat, a: nat)
    requires hi <= |log| && Undone(log, lo, hi, p) && Untouched(log, lo, hi, a)
    ensures !Covers(log[p], a)
  {
  }

  lemma StepRecSkip(s: State)
    requires Inv(s) && CanRecSkip(s)
    ensures Inv(DoRecSkip(s))
  {
    hide Undone, Restores, Untouched, Skip;
    var i, lo := s.mode.i, s.cur.head;
    SkipTop(s.cur.log, lo, i);
    SameRestores(s.cur.log, i, s.cur.log, Skip(s.cur.log, lo, i), lo, s.cur.data, s.spec);
  }

  lemma StepRecWipe(s: State, p: nat)
    requires Inv(s) && CanRecWipe(s, p)
    ensures Inv(DoRecWipe(s, p))
  {
    hide Undone, Restores, Untouched;
    var i, lo, log' := s.mode.i, s.cur.head, Wiped(s.cur.log, p);
    UndoneFrame(s.cur.log, log', lo, i);
    SameRestores(s.cur.log, i, log', i, lo, s.cur.data, s.spec);
    assert Fits(log', |s.spec|);
  }

  /** When the walk is done every byte has its committed value. */
  lemma RecoveredData(s: State)
    requires Inv(s) && s.mode.Recovering? && s.mode.i == s.cur.head
    ensures s.cur.data == s.spec
  {
    forall a | 0 <= a < |s.spec| ensures s.cur.data[a] == s.spec[a] {
      assert Untouched(s.cur.log, s.dur.head, s.mode.i, a);
    }
  }

  lemma StepRecAdvance(s: State, grow: seq<bool>, head: nat)
    requires Inv(s) && CanRecAdvance(s, grow, head)
    ensures Inv(DoRecAdvance(s, grow, head))
  {
    hide Undone, Restores, Untouched;
    RecoveredData(s);
    RestoresLonger(s.dur.log, Blanks(grow), s.dur.head, s.dur.tail, s.dur.data, s.spec);
  }

  /** Cells past the window play no part in recovery. */
  lemma RestoresLonger(log: seq<Cell>, more: seq<Cell>, lo: nat, hi: nat, data: seq<Byte>, want: seq<Byte>)
    requires lo <= hi <= |log| && Restores(log, lo, hi, data, want) && GroupsApart(log, lo, hi)
    ensures Restores(log + more, lo, hi, data, want) && GroupsApart(log + more, lo, hi)
  {
    hide Under, Capped, Restores, Untouched;
    UndoneFrame(log, log + more, lo, hi);
    SameRestores(log, hi, log + more, hi, lo, data, want);
    var log' := log + more;
    forall p: nat, q: nat, a: nat | Undone(log', lo, hi, p) && Undone(log', lo, hi, q) && Covers(log'[p], a)
        && Covers(log'[q], a)
      ensures SameGroup(log', p, q)
    {
      assert Undone(log, lo, hi, p) && Undone(log, lo, hi, q) && SameGroup(log, p, q);
    }
  }

  lemma StepRecHead(s: State)
    requires Inv(s) && s.mode.Forwarding?
    ensures Inv(s.(cur := s.cur.(head := s.cur.tail)))
  {
  }

  lemma StepRecDone(s: State)
    requires Inv(s) && CanRecDone(s)
    ensures Inv(s.(mode := Mounted([], s.cur.head)))
  {
  }

  // ------------------------------------------------------------- main results

  lemma StepKeepsInv(s: State, st: Step)
    requires Inv(s) && Enabled(s, st)
    ensures Inv(Next(s, st))
  {
    hide Regions, Cells, Data, RecoveringInv, ForwardingInv;
    match st
    case Reserve(pad, edge, cap) => StepReserve(s, pad, edge, cap);
    case LogData(i, addr, len) => StepLogData(s, i, addr, len);
    case FenceLog(i) => StepFenceLog(s, i);
    case Write(i, a, v) => StepWrite(s, i, a, v);
    case SealCommit(i) => StepSealCommit(s, i);
    case BeginAbort(i) => StepBeginAbort(s, i);
    case UndoOne(i) => StepUndoOne(s, i);
    case SealAbort(i) => StepSealAbort(s, i);
    case PersistByte(a) => StepPersistByte(s, a);
    case PersistSlot(p) => StepPersistSlot(s, p);
    case PersistSeal(i) => StepPersistSeal(s, i);
    case PersistHeader => StepPersistHeader(s);
    case CleanSlot(scrub) => StepCleanSlot(s, scrub);
    case CleanHead => StepCleanHead(s);
    case Crash => StepCrash(s);
    case RecUndo => StepRecUndo(s);
    case RecSkip => StepRecSkip(s);
    case RecWipe(p) => StepRecWipe(s, p);
    case RecAdvance(grow, head) => StepRecAdvance(s, grow, head);
    case RecHead => StepRecHead(s);
    case RecDone => StepRecDone(s);
  }

  /** `run` starts with an empty journal and takes one step after another. */
  ghost predicate IsRun(run: seq<State>, steps: seq<Step>) {
    |run| == |steps| + 1 && Init(run[0])
    && forall i | 0 <= i < |steps| :: Enabled(run[i], steps[i]) && run[i + 1] == Next(run[i], steps[i])
  }

  lemma {:induction false} RunKeepsInv(run: seq<State>, steps: seq<Step>, n: nat)
    requires IsRun(run, steps) && n < |run|
    ensures Inv(run[n])
  {
    if n > 0 {
      RunKeepsInv(run, steps, n - 1);
      StepKeepsInv(run[n - 1], steps[n - 1]);
    }
  }

  /** Crash atomicity. At every moment of every run, whatever a power failure leaves
      in persistent memory is brought by recovery to the image that holds exactly the
      transactions whose commit record is persistent. */
  lemma CrashAtomic(run: seq<State>, steps: seq<Step>, n: nat)
    requires IsRun(run, steps) && n < |run|
    ensures ImgOK(run[n].dur)
    ensures Recover(run[n].dur.log, run[n].dur.head, run[n].dur.tail, run[n].dur.data) == run[n].spec
  {
    RunKeepsInv(run, steps, n);
    InvRestores(run[n]);
    RecoverIff(run[n].dur.log, run[n].dur.head, run[n].dur.tail, run[n].dur.data, run[n].spec);
  }

  /** A finished recovery leaves exactly the committed data, in both images. */
  lemma RecoveryEnds(run: seq<State>, steps: seq<Step>, n: nat)
    requires IsRun(run, steps) && n < |steps| && steps[n].RecDone?
    ensures run[n + 1].cur.data == run[n + 1].dur.data == run[n + 1].spec
  {
    RunKeepsInv(run, steps, n);
  }

  /** The committed image changes only when a commit record becomes persistent, and
      then in exactly the bytes that transaction saved, to the values it stored. */
  lemma OnlyCommitsTakeEffect(s: State, st: Step)
    requires Inv(s) && Enabled(s, st)
    ensures Next(s, st).spec != s.spec ==> st.PersistSeal? && s.mode.txs[st.i].phase == Sealing(true)
    ensures st.PersistSeal? && s.mode.txs[st.i].phase == Sealing(true) ==>
              forall a | 0 <= a < |s.spec| ::
                Next(s, st).spec[a] ==
                  if Covered(s.mode.txs[st.i].ents, |s.mode.txs[st.i].ents|, a) then s.dur.data[a] else s.spec[a]
  {
    if st.PersistSeal? { SealedBytes(s, st.i); }
  }

  /** With clflush, which keeps program order, a log slot never becomes persistent
      before the tail that covers it; then no crash leaves a stray slot behind. */
  ghost predicate InOrder(s: State, st: Step) {
    match st
    case PersistSlot(p) => p < s.dur.tail
    case PersistSeal(i) => s.mode.Mounted? && i < |s.mode.txs| && s.mode.txs[i].lo + |s.mode.txs[i].ents| <= s.dur.tail
    case _ => true
  }

  lemma StepNoStray(s: State, st: Step)
    requires Inv(s) && Enabled(s, st) && InOrder(s, st) && NoStray(s.dur)
    ensures NoStray(Next(s, st).dur)
  {
  }

  lemma {:induction false} OrderedNoStray(run: seq<State>, steps: seq<Step>, n: nat)
    requires IsRun(run, steps) && n < |run|
    requires forall i | 0 <= i < |steps| :: InOrder(run[i], steps[i])
    ensures NoStray(run[n].dur)
  {
    if n > 0 {
      OrderedNoStray(run, steps, n - 1);
      RunKeepsInv(run, steps, n - 1);
      StepNoStray(run[n - 1], steps[n - 1]);
    }
  }
}
