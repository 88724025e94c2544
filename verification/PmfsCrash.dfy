/** The PMFS undo journal as a step system with crashes (pmfs/journal.c).

    Persistent memory is kept twice: `cur` is what the processor sees and `dur` is
    what a power failure leaves behind. A store changes `cur` only; a `Persist` step
    copies one byte, one log slot or the journal header to `dur` at any moment, so
    unflushed stores survive as any subset; a fence is a guard that waits until the
    lines flushed before it are in `dur`. Log positions are never reused: position
    `p` of the model is ring slot `p % N` in one particular lap, and a position no
    record has been stored at is a cell that fails the generation test. */
module PmfsCrash {
  import opened PmfsUndoWalk
  import opened PmfsRecovery

  datatype Img = Img(data: seq<Byte>, log: seq<Cell>, head: nat, tail: nat)

  /** `Aborting(left)`: entries `left ..` have been undone. `Sealing`: the commit or
      abort record is stored but not yet persistent. */
  datatype Phase = Running | Aborting(left: nat) | Sealing(commit: bool) | Sealed

  /** A reservation of `cap` slots from `lo`, the records stored in it so far, and
      how many of them a fence has made persistent. */
  datatype Tx = Tx(lo: nat, cap: nat, ents: seq<Cell>, fenced: nat, phase: Phase)

  /** `cl` is how far the log cleaner has scanned past the head, `i` how far the recovery
      walk has come down. */
  datatype Mode = Mounted(txs: seq<Tx>, cl: nat) | Recovering(i: nat) | Forwarding

  /** `spec` is the file-system image with exactly the committed transactions in it. */
  datatype State = State(cur: Img, dur: Img, spec: seq<Byte>, mode: Mode)

  datatype Step =
    | Reserve(pad: seq<bool>, edge: bool, cap: nat)
    | LogData(i: nat, addr: nat, len: nat)
    | FenceLog(i: nat)
    | Write(i: nat, a: nat, v: Byte)
    | SealCommit(i: nat)
    | BeginAbort(i: nat)
    | UndoOne(i: nat)
    | SealAbort(i: nat)
    | PersistByte(a: nat)
    | PersistSlot(p: nat)
    | PersistSeal(i: nat)
    | PersistHeader
    | CleanSlot(scrub: bool)
    | CleanHead
    | Crash
    | RecUndo
    | RecSkip
    | RecWipe(p: nat)
    | RecAdvance(grow: seq<bool>, head: nat)
    | RecHead
    | RecDone

  const MAX_DATA_PER_LENTRY := 48

  function Blank(edge: bool): Cell { Cell(edge, false, false, false, 0, []) }

  function Blanks(edges: seq<bool>): (r: seq<Cell>)
    ensures |r| == |edges| && forall p | 0 <= p < |r| :: r[p] == Blank(edges[p])
  {
    seq(|edges|, p requires 0 <= p < |edges| => Blank(edges[p]))
  }

  predicate Unsealed(t: Tx) { !t.phase.Sealed? }

  predicate Covered(ents: seq<Cell>, n: nat, a: nat)
    requires n <= |ents|
  {
    exists k :: 0 <= k < n && Covers(ents[k], a)
  }

  /** Bytes saved by a fenced record: the ones a transaction may store to. */
  predicate Writable(t: Tx, a: nat)
    requires t.fenced <= |t.ents|
  {
    Covered(t.ents, t.fenced, a)
  }

  function Overlay(spec: seq<Byte>, data: seq<Byte>, ents: seq<Cell>): (r: seq<Byte>)
    requires |spec| == |data|
    ensures |r| == |spec|
    ensures forall a | 0 <= a < |r| :: r[a] == if Covered(ents, |ents|, a) then data[a] else spec[a]
  {
    seq(|spec|, a requires 0 <= a < |spec| => if Covered(ents, |ents|, a) then data[a] else spec[a])
  }

  // ---------------------------------------------------------------- invariant

  ghost predicate ImgOK(i: Img) {
    i.head <= i.tail <= |i.log| && Fits(i.log, |i.data|)
  }

  ghost predicate Shape(s: State) {
    && ImgOK(s.cur) && ImgOK(s.dur)
    && |s.cur.data| == |s.dur.data| == |s.spec|
    && |s.cur.log| == |s.dur.log|
    && forall p | 0 <= p < |s.cur.log| :: s.cur.log[p].edge == s.dur.log[p].edge
  }

  ghost predicate TxOK(t: Tx, log: seq<Cell>, size: nat) {
    && 0 < t.cap && t.lo + t.cap <= |log|
    && t.fenced <= |t.ents| <= t.cap
    && (forall p | t.lo < p < t.lo + t.cap :: !log[p].edge)
    && (forall k | 0 <= k < |t.ents| ::
          && t.ents[k].live && (t.ents[k].start <==> k == 0)
          && (t.ents[k].fin <==> k == |t.ents| - 1 && (t.phase.Sealing? || t.phase.Sealed?))
          && t.ents[k].edge == log[t.lo + k].edge
          && t.ents[k].addr + |t.ents[k].saved| <= size
          && (t.ents[k].fin ==> t.ents[k].saved == []))
    && match t.phase
       case Running => true
       case Aborting(left) => left <= |t.ents| == t.fenced
       case Sealing(_) => |t.ents| > 0 && t.fenced == |t.ents| - 1
       case Sealed => |t.ents| > 0 && t.fenced == |t.ents|
  }

  /** Reservations are disjoint, in log order, and ahead of the cleaner while open. */
  ghost predicate Regions(log: seq<Cell>, size: nat, heads: (nat, nat), tails: (nat, nat), txs: seq<Tx>, cl: nat) {
    && heads.1 <= heads.0 <= cl <= tails.0 == |log|
    && (forall i | 0 <= i < |txs| :: TxOK(txs[i], log, size))
    && (forall i, j | 0 <= i < j < |txs| :: txs[i].lo + txs[i].cap <= txs[j].lo)
    && (forall i | 0 <= i < |txs| && (txs[i].fenced > 0 || txs[i].phase.Sealing?) ::
          txs[i].lo + txs[i].cap <= tails.1)
    && (forall i | 0 <= i < |txs| && Unsealed(txs[i]) :: cl <= txs[i].lo)
    && (forall i | 0 <= i < |txs| :: Straddles(txs[i], heads.0) == Straddles(txs[i], heads.1) == false)
  }

  ghost predicate Straddles(t: Tx, p: nat) { t.lo < p < t.lo + |t.ents| }

  ghost predicate Owns(t: Tx, p: nat) { t.lo <= p < t.lo + |t.ents| }

  /** What the two images hold at position `lo + k` of a transaction. */
  ghost predicate CellOK(clog: seq<Cell>, dlog: seq<Cell>, dhead: nat, t: Tx, k: nat, cl: nat)
    requires k < |t.ents| && t.lo + |t.ents| <= |clog| == |dlog|
  {
    var c := clog[t.lo + k];
    var d := dlog[t.lo + k];
    && (c.live ==> c == t.ents[k]) && (d.live ==> d == t.ents[k])
    && (cl <= t.lo + k ==> c == t.ents[k]) && (c.live && k < t.fenced ==> d.live)
    && (t.phase.Sealing? && k == |t.ents| - 1 ==> !d.live)
    && (t.phase.Sealed? && dhead <= t.lo && dlog[t.lo].live ==> (c.live || k == 0) && d.live)
  }

  ghost predicate TxCells(clog: seq<Cell>, dlog: seq<Cell>, dhead: nat, t: Tx, cl: nat) {
    t.lo + |t.ents| <= |clog| == |dlog|
    && forall k | 0 <= k < |t.ents| :: CellOK(clog, dlog, dhead, t, k, cl)
  }

  ghost predicate Owned(txs: seq<Tx>, p: nat) {
    exists i :: 0 <= i < |txs| && Owns(txs[i], p)
  }

  ghost predicate Cells(clog: seq<Cell>, dlog: seq<Cell>, dhead: nat, txs: seq<Tx>, cl: nat) {
    && |clog| == |dlog|
    && (forall p | dhead <= p < |clog| && (clog[p].live || dlog[p].live) :: Owned(txs, p))
    && (forall i | 0 <= i < |txs| :: TxCells(clog, dlog, dhead, txs[i], cl))
  }

  /** The saved value that counts for a byte of an open transaction is its value
      before the transaction. */
  ghost predicate SavesSpec(t: Tx, spec: seq<Byte>)
    requires t.fenced <= |t.ents|
  {
    forall k, a | 0 <= k < |t.ents| && 0 <= a < |spec| && Covers(t.ents[k], a)
                  && !Covered(t.ents, if k < t.fenced then k else t.fenced, a) ::
      t.ents[k].saved[a - t.ents[k].addr] == spec[a]
  }

  ghost predicate PhaseData(cdata: seq<Byte>, ddata: seq<Byte>, spec: seq<Byte>, t: Tx)
    requires |cdata| == |ddata| == |spec| && t.fenced <= |t.ents|
  {
    match t.phase
    case Aborting(left) =>
      left <= |t.ents|
      && forall a | 0 <= a < |spec| && Covered(t.ents, |t.ents|, a) && !Covered(t.ents, left, a) :: cdata[a] == spec[a]
    case Sealing(commit) =>
      forall a | 0 <= a < |spec| && Writable(t, a) :: cdata[a] == ddata[a] && (!commit ==> cdata[a] == spec[a])
    case _ => true
  }

  ghost predicate Idle(txs: seq<Tx>, a: nat)
    requires forall i | 0 <= i < |txs| :: txs[i].fenced <= |txs[i].ents|
  {
    forall i | 0 <= i < |txs| && Unsealed(txs[i]) :: !Writable(txs[i], a)
  }

  ghost predicate Disjoint(t: Tx, u: Tx) {
    forall a: nat :: !(Covered(t.ents, |t.ents|, a) && Covered(u.ents, |u.ents|, a))
  }

  ghost predicate Data(cdata: seq<Byte>, ddata: seq<Byte>, spec: seq<Byte>, txs: seq<Tx>) {
    && |cdata| == |ddata| == |spec|
    && (forall i | 0 <= i < |txs| :: txs[i].fenced <= |txs[i].ents|)
    && (forall a | 0 <= a < |spec| && Idle(txs, a) :: cdata[a] == ddata[a] == spec[a])
    && (forall i | 0 <= i < |txs| && Unsealed(txs[i]) ::
          SavesSpec(txs[i], spec) && PhaseData(cdata, ddata, spec, txs[i]))
    && (forall i, j | 0 <= i < j < |txs| && Unsealed(txs[i]) && Unsealed(txs[j]) :: Disjoint(txs[i], txs[j]))
  }

  ghost predicate MountedInv(s: State, txs: seq<Tx>, cl: nat) {
    && Regions(s.cur.log, |s.spec|, (s.cur.head, s.dur.head), (s.cur.tail, s.dur.tail), txs, cl)
    && Cells(s.cur.log, s.dur.log, s.dur.head, txs, cl)
    && Data(s.cur.data, s.dur.data, s.spec, txs)
  }

  // ------------------------------------- a mounted image recovers to `spec`

  ghost predicate InWindow(s: State, p: nat)
    requires Shape(s)
  {
    s.dur.head <= p < s.dur.tail && s.dur.log[p].live
  }

  lemma CapsByOwnRecord(log: seq<Cell>, t: Tx, k: nat)
    requires k < |t.ents| - 1 && t.lo + |t.ents| <= |log|
    requires forall q | 0 <= q < |t.ents| :: log[t.lo + q] == t.ents[q]
    requires forall q | 0 < q < |t.ents| ::
               !t.ents[q].start && !t.ents[q].edge && (t.ents[q].fin <==> q == |t.ents| - 1)
    requires t.ents[|t.ents| - 1].live
    ensures Caps(log, t.lo + k, t.lo + |t.ents| - 1)
  {
    var e := t.lo + |t.ents| - 1;
    forall q | t.lo + k < q < e ensures !Mark(log[q]) && !log[q].edge {
      assert log[t.lo + (q - t.lo)] == t.ents[q - t.lo];
    }
    assert log[t.lo + (|t.ents| - 1)] == t.ents[|t.ents| - 1];
  }

  lemma IntactKept(s: State, txs: seq<Tx>, cl: nat, i: nat, k: nat)
    requires Shape(s) && MountedInv(s, txs, cl)
    requires i < |txs| && txs[i].phase.Sealed? && k < |txs[i].ents|
    requires InWindow(s, txs[i].lo + k)
    requires s.dur.head <= txs[i].lo && s.dur.log[txs[i].lo].live
    ensures !Undone(s.dur.log, s.dur.head, s.dur.tail, txs[i].lo + k)
  {
    var t := txs[i];
    assert TxOK(t, s.cur.log, |s.spec|);
    forall q | 0 <= q < |t.ents|
      ensures s.dur.log[t.lo + q] == t.ents[q]
    {
      assert CellOK(s.cur.log, s.dur.log, s.dur.head, t, q, cl);
    }
    if k < |t.ents| - 1 {
      CapsByOwnRecord(s.dur.log, t, k);
    } else {
      assert s.dur.log[t.lo + k] == t.ents[k];
    }
  }

  lemma OwnerOf(s: State, txs: seq<Tx>, cl: nat, p: nat) returns (i: nat)
    requires Shape(s) && MountedInv(s, txs, cl)
    requires s.dur.head <= p < |s.dur.log| && s.dur.log[p].live
    ensures i < |txs| && Owns(txs[i], p) && s.dur.log[p] == txs[i].ents[p - txs[i].lo]
    ensures TxOK(txs[i], s.cur.log, |s.spec|)
    ensures txs[i].phase.Sealing? ==> p != txs[i].lo + |txs[i].ents| - 1
  {
    i :| 0 <= i < |txs| && Owns(txs[i], p);
    assert CellOK(s.cur.log, s.dur.log, s.dur.head, txs[i], p - txs[i].lo, cl);
  }

  /** A persistent LE_START of a closed transaction comes with its closing record. */
  lemma SealedWhole(s: State, txs: seq<Tx>, cl: nat, j: nat)
    requires Shape(s) && MountedInv(s, txs, cl)
    requires j < |txs| && txs[j].phase.Sealed? && s.dur.head <= txs[j].lo && s.dur.log[txs[j].lo].live
    ensures |txs[j].ents| > 0 && txs[j].lo + |txs[j].ents| <= |s.dur.log|
    ensures Mark(s.dur.log[txs[j].lo + |txs[j].ents| - 1]) && s.dur.log[txs[j].lo + |txs[j].ents| - 1].fin
  {
    assert TxOK(txs[j], s.cur.log, |s.spec|);
    assert CellOK(s.cur.log, s.dur.log, s.dur.head, txs[j], |txs[j].ents| - 1, cl);
  }

  lemma Ordered(s: State, txs: seq<Tx>, cl: nat, i: nat, j: nat)
    requires Shape(s) && MountedInv(s, txs, cl) && i < |txs| && j < |txs| && i != j
    ensures txs[i].lo < txs[j].lo ==> i < j
    ensures i < j ==> txs[i].lo + |txs[i].ents| <= txs[i].lo + txs[i].cap <= txs[j].lo
  {
    assert TxOK(txs[i], s.cur.log, |s.spec|) && TxOK(txs[j], s.cur.log, |s.spec|);
  }

  lemma WipedKept(s: State, txs: seq<Tx>, cl: nat, i: nat, k: nat, b: nat)
    requires Shape(s) && MountedInv(s, txs, cl)
    requires i < |txs| && txs[i].phase.Sealed? && k < |txs[i].ents|
    requires InWindow(s, txs[i].lo + k)
    requires s.dur.head <= txs[i].lo && !s.dur.log[txs[i].lo].live
    requires s.dur.head <= b <= txs[i].lo + k
    ensures !Opens(s.dur.log, b, txs[i].lo + k)
  {
    var t := txs[i];
    var log := s.dur.log;
    if log[b].live && log[b].start && !log[b].fin {
      var j := OwnerOf(s, txs, cl, b);
      var u := txs[j];
      assert b == u.lo;
      assert i != j;
      Ordered(s, txs, cl, i, j);
      Ordered(s, txs, cl, j, i);
      assert j < i;
      assert t.lo < cl by { assert CellOK(s.cur.log, s.dur.log, s.dur.head, t, 0, cl); }
      assert u.phase.Sealed?;
      SealedWhole(s, txs, cl, j);
      assert u.lo < u.lo + |u.ents| - 1 < t.lo;
    }
  }

  /** Records of a committed or aborted transaction are never undone, also while the
      cleaner is wiping it: its LE_START goes first. */
  lemma SealedKept(s: State, txs: seq<Tx>, cl: nat, i: nat, k: nat)
    requires Shape(s) && MountedInv(s, txs, cl)
    requires i < |txs| && txs[i].phase.Sealed? && k < |txs[i].ents|
    requires InWindow(s, txs[i].lo + k)
    ensures !Undone(s.dur.log, s.dur.head, s.dur.tail, txs[i].lo + k)
  {
    assert !Straddles(txs[i], s.dur.head);
    assert txs[i].lo >= s.dur.head;
    if s.dur.log[txs[i].lo].live {
      IntactKept(s, txs, cl, i, k);
    } else if Under(s.dur.log, s.dur.head, txs[i].lo + k) {
      var b :| s.dur.head <= b <= txs[i].lo + k && Opens(s.dur.log, b, txs[i].lo + k);
      WipedKept(s, txs, cl, i, k, b);
    }
  }

  lemma FencedPersistent(s: State, txs: seq<Tx>, cl: nat, i: nat)
    requires Shape(s) && MountedInv(s, txs, cl) && i < |txs| && Unsealed(txs[i])
    ensures s.dur.head <= txs[i].lo && TxOK(txs[i], s.cur.log, |s.spec|)
    ensures txs[i].fenced > 0 ==> txs[i].lo + txs[i].cap <= s.dur.tail
    ensures forall q | 0 <= q < txs[i].fenced :: s.dur.log[txs[i].lo + q] == txs[i].ents[q]
  {
    forall q | 0 <= q < txs[i].fenced ensures s.dur.log[txs[i].lo + q] == txs[i].ents[q] {
      assert CellOK(s.cur.log, s.dur.log, s.dur.head, txs[i], q, cl);
    }
  }

  lemma OpenNotCapped(s: State, txs: seq<Tx>, cl: nat, i: nat, k: nat, e: nat)
    requires Shape(s) && MountedInv(s, txs, cl)
    requires i < |txs| && Unsealed(txs[i]) && k < txs[i].fenced && txs[i].lo + k < e < s.dur.tail
    ensures !Caps(s.dur.log, txs[i].lo + k, e)
  {
    var log := s.dur.log;
    FencedPersistent(s, txs, cl, i);
    if log[e].live && log[e].fin && !log[e].start {
      var j := OwnerOf(s, txs, cl, e);
      var u := txs[j];
      assert u.phase.Sealed?;
      Ordered(s, txs, cl, i, j);
      Ordered(s, txs, cl, j, i);
      assert txs[i].lo < u.lo < e;
      assert cl <= u.lo;
      assert CellOK(s.cur.log, s.dur.log, s.dur.head, u, 0, cl);
      assert Mark(log[u.lo]);
    }
  }

  /** A fenced record of an open transaction is undone. */
  lemma OpenUndone(s: State, txs: seq<Tx>, cl: nat, i: nat, k: nat)
    requires Shape(s) && MountedInv(s, txs, cl)
    requires i < |txs| && Unsealed(txs[i]) && k < txs[i].fenced
    ensures Undone(s.dur.log, s.dur.head, s.dur.tail, txs[i].lo + k)
    ensures s.dur.log[txs[i].lo + k] == txs[i].ents[k]
  {
    hide Regions, Cells, Data;
    var t := txs[i];
    var log := s.dur.log;
    var p := t.lo + k;
    FencedPersistent(s, txs, cl, i);
    forall q | t.lo < q <= p ensures !Mark(log[q]) && !log[q].edge {
      assert log[t.lo + (q - t.lo)] == t.ents[q - t.lo];
    }
    assert log[t.lo + 0] == t.ents[0] && log[t.lo + k] == t.ents[k];
    assert Opens(log, t.lo, p);
    forall e | p < e < s.dur.tail ensures !Caps(log, p, e) { OpenNotCapped(s, txs, cl, i, k, e); }
  }

  /** The lowest undone record that covers a byte saved the byte's committed value. */
  lemma LowestSaves(s: State, txs: seq<Tx>, cl: nat, p: nat, a: nat)
    requires Shape(s) && MountedInv(s, txs, cl)
    requires a < |s.spec| && Lowest(s.dur.log, s.dur.head, s.dur.tail, p, a)
    ensures s.dur.log[p].saved[a - s.dur.log[p].addr] == s.spec[a]
  {
    hide Regions, Cells, Under, Capped;
    var i := OwnerOf(s, txs, cl, p);
    var t := txs[i];
    var k := p - t.lo;
    if t.phase.Sealed? {
      SealedKept(s, txs, cl, i, k);
    } else {
      forall j | 0 <= j < (if k < t.fenced then k else t.fenced) ensures !Covers(t.ents[j], a) {
        OpenUndone(s, txs, cl, i, j);
      }
    }
  }

  /** Every image a crash can leave behind recovers to the committed state. */
  lemma MountedRestores(s: State, txs: seq<Tx>, cl: nat)
    requires Shape(s) && MountedInv(s, txs, cl)
    ensures Restores(s.dur.log, s.dur.head, s.dur.tail, s.dur.data, s.spec)
  {
    var log := s.dur.log;
    forall a | 0 <= a < |s.spec| && Untouched(log, s.dur.head, s.dur.tail, a)
      ensures s.dur.data[a] == s.spec[a]
    {
      if !Idle(txs, a) {
        var i :| 0 <= i < |txs| && Unsealed(txs[i]) && Writable(txs[i], a);
        var k :| 0 <= k < txs[i].fenced && Covers(txs[i].ents[k], a);
        OpenUndone(s, txs, cl, i, k);
      }
    }
    forall a, p | 0 <= a < |s.spec| && s.dur.head <= p < s.dur.tail && Lowest(log, s.dur.head, s.dur.tail, p, a)
      ensures log[p].saved[a - log[p].addr] == s.spec[a]
    {
      LowestSaves(s, txs, cl, p, a);
    }
  }

  /** Open transactions save disjoint bytes. */
  lemma MountedApart(s: State, txs: seq<Tx>, cl: nat)
    requires Shape(s) && MountedInv(s, txs, cl)
    ensures GroupsApart(s.dur.log, s.dur.head, s.dur.tail)
  {
    var log, lo, hi := s.dur.log, s.dur.head, s.dur.tail;
    hide Under, Capped;
    forall p: nat, q: nat, a: nat | Undone(log, lo, hi, p) && Undone(log, lo, hi, q) && Covers(log[p], a)
        && Covers(log[q], a)
      ensures SameGroup(log, p, q)
    {
      TwoUndone(s, txs, cl, p, q, a);
    }
  }

  lemma TwoUndone(s: State, txs: seq<Tx>, cl: nat, p: nat, q: nat, a: nat)
    requires Shape(s) && MountedInv(s, txs, cl)
    requires Undone(s.dur.log, s.dur.head, s.dur.tail, p) && Undone(s.dur.log, s.dur.head, s.dur.tail, q)
    requires Covers(s.dur.log[p], a) && Covers(s.dur.log[q], a)
    ensures SameGroup(s.dur.log, p, q)
  {
    hide Regions, Cells, Data, Under, Capped;
    var i := UndoneOwner(s, txs, cl, p);
    var j := UndoneOwner(s, txs, cl, q);
    SameOwner(s, txs, cl, i, j, p - txs[i].lo, q - txs[j].lo, a);
    forall m | p < m <= q || q < m <= p ensures !Mark(s.dur.log[m]) && !s.dur.log[m].edge {
      InsideOpen(s, txs, cl, i, m);
    }
  }

  lemma UndoneOwner(s: State, txs: seq<Tx>, cl: nat, p: nat) returns (i: nat)
    requires Shape(s) && MountedInv(s, txs, cl) && Undone(s.dur.log, s.dur.head, s.dur.tail, p)
    ensures i < |txs| && Owns(txs[i], p) && Unsealed(txs[i]) && s.dur.log[p] == txs[i].ents[p - txs[i].lo]
  {
    hide Regions, Cells, Data;
    i := OwnerOf(s, txs, cl, p);
    if txs[i].phase.Sealed? { SealedKept(s, txs, cl, i, p - txs[i].lo); }
  }

  lemma SameOwner(s: State, txs: seq<Tx>, cl: nat, i: nat, j: nat, k: nat, l: nat, a: nat)
    requires Shape(s) && MountedInv(s, txs, cl) && i < |txs| && j < |txs| && Unsealed(txs[i]) && Unsealed(txs[j])
    requires k < |txs[i].ents| && l < |txs[j].ents| && Covers(txs[i].ents[k], a) && Covers(txs[j].ents[l], a)
    ensures i == j
  {
    hide Regions, Cells;
    assert Covered(txs[i].ents, |txs[i].ents|, a) && Covered(txs[j].ents, |txs[j].ents|, a);
    assert (i < j ==> Disjoint(txs[i], txs[j])) && (j < i ==> Disjoint(txs[j], txs[i]));
  }

  lemma InsideOpen(s: State, txs: seq<Tx>, cl: nat, i: nat, m: nat)
    requires Shape(s) && MountedInv(s, txs, cl) && i < |txs| && Unsealed(txs[i])
    requires txs[i].lo < m < txs[i].lo + |txs[i].ents|
    ensures m < |s.dur.log| && !Mark(s.dur.log[m]) && !s.dur.log[m].edge
  {
    hide Data;
    var t := txs[i];
    assert TxOK(t, s.cur.log, |s.spec|);
    assert CellOK(s.cur.log, s.dur.log, s.dur.head, t, m - t.lo, cl);
    assert s.cur.log[m].edge == s.dur.log[m].edge;
  }

  // ------------------------------------------------------------------- steps

  /** What is left of the walk, on what the processor sees, yields `spec`; so does a recovery
      that starts over. Slots the walk has passed may be wiped. */
  ghost predicate RecoveringInv(s: State, i: nat)
    requires Shape(s)
  {
    && s.cur.head == s.dur.head <= i <= s.cur.tail == s.dur.tail
    && (forall p | 0 <= p < i :: s.cur.log[p] == s.dur.log[p])
    && (forall p | i <= p < |s.cur.log| :: s.cur.log[p] == s.dur.log[p] || s.cur.log[p] == Dead(s.dur.log[p]))
    && Restores(s.dur.log, s.dur.head, s.dur.tail, s.dur.data, s.spec)
    && Restores(s.cur.log, s.dur.head, i, s.cur.data, s.spec)
    && (forall a: nat | a < |s.spec| && Untouched(s.dur.log, s.dur.head, s.dur.tail, a) :: s.cur.data[a] == s.spec[a])
    && (forall p: nat | Undone(s.cur.log, s.dur.head, i, p) :: Undone(s.dur.log, s.dur.head, s.dur.tail, p))
    && GroupsApart(s.dur.log, s.dur.head, s.dur.tail)
  }

  ghost predicate ForwardingInv(s: State)
    requires Shape(s)
  {
    && s.cur.log == s.dur.log && s.cur.data == s.dur.data == s.spec
    && s.cur.tail == |s.cur.log|
    && (forall p | s.cur.head <= p < s.cur.tail :: !s.cur.log[p].live)
    && Restores(s.dur.log, s.dur.head, s.dur.tail, s.dur.data, s.spec) && GroupsApart(s.dur.log, s.dur.head, s.dur.tail)
  }

  ghost predicate Inv(s: State) {
    Shape(s) &&
    match s.mode
    case Mounted(txs, cl) => MountedInv(s, txs, cl)
    case Recovering(i) => RecoveringInv(s, i)
    case Forwarding => ForwardingInv(s)
  }

  ghost predicate Init(s: State) {
    s.cur == s.dur == Img(s.spec, [], 0, 0) && s.mode == Mounted([], 0)
  }

  /** No slot past the persistent tail passes the generation test. */
  ghost predicate NoStray(m: Img) {
    forall p | m.tail <= p < |m.log| :: !m.log[p].live
  }

  ghost predicate TxAt(s: State, i: nat) {
    s.mode.Mounted? && i < |s.mode.txs|
    && s.mode.txs[i].fenced <= |s.mode.txs[i].ents| <= s.mode.txs[i].cap
    && s.mode.txs[i].lo + s.mode.txs[i].cap <= |s.cur.log|
  }

  /** All bytes of the transaction are flushed, and so is the tail of the journal. */
  ghost predicate FlushedTx(s: State, t: Tx)
    requires Shape(s)
  {
    t.lo + t.cap <= s.dur.tail
    && forall a | 0 <= a < |s.spec| && Covered(t.ents, |t.ents|, a) :: s.cur.data[a] == s.dur.data[a]
  }

  // Guards, one for each step.

  /** Under journal_mutex, with the cleaner finished. */
  ghost predicate CanReserve(s: State, cap: nat) {
    s.mode.Mounted? && 0 < cap && s.dur.head == s.cur.head == s.mode.cl
  }

  /** The last slot of the reservation stays free for the closing record, and no
      other open transaction has saved any of the bytes. */
  ghost predicate CanLogData(s: State, i: nat, addr: nat, len: nat) {
    TxAt(s, i) && var t := s.mode.txs[i];
    && t.phase.Running? && |t.ents| + 1 < t.cap
    && 0 < len <= MAX_DATA_PER_LENTRY && addr + len <= |s.spec|
    && forall j, a | 0 <= j < |s.mode.txs| && j != i && Unsealed(s.mode.txs[j]) && addr <= a < addr + len ::
         !Covered(s.mode.txs[j].ents, |s.mode.txs[j].ents|, a)
  }

  /** The fence at the end of pmfs_add_logentry. */
  ghost predicate CanFenceLog(s: State, i: nat)
    requires Shape(s)
  {
    TxAt(s, i) && var t := s.mode.txs[i];
    && t.phase.Running? && t.lo + t.cap <= s.dur.tail
    && s.dur.log[t.lo..t.lo + |t.ents|] == s.cur.log[t.lo..t.lo + |t.ents|]
  }

  ghost predicate CanWrite(s: State, i: nat, a: nat) {
    TxAt(s, i) && s.mode.txs[i].phase.Running? && a < |s.spec| && Writable(s.mode.txs[i], a)
  }

  ghost predicate CanSealCommit(s: State, i: nat)
    requires Shape(s)
  {
    TxAt(s, i) && var t := s.mode.txs[i];
    t.phase.Running? && t.fenced == |t.ents| < t.cap && FlushedTx(s, t)
  }

  ghost predicate CanBeginAbort(s: State, i: nat) {
    TxAt(s, i) && s.mode.txs[i].phase.Running? && s.mode.txs[i].fenced == |s.mode.txs[i].ents|
  }

  ghost predicate CanUndoOne(s: State, i: nat) {
    TxAt(s, i) && s.mode.txs[i].phase.Aborting? && 0 < s.mode.txs[i].phase.left <= |s.mode.txs[i].ents|
  }

  ghost predicate CanSealAbort(s: State, i: nat)
    requires Shape(s)
  {
    TxAt(s, i) && var t := s.mode.txs[i];
    t.phase == Aborting(0) && |t.ents| < t.cap && FlushedTx(s, t)
  }

  ghost predicate CanPersistSlot(s: State, p: nat)
    requires Shape(s)
  {
    p < |s.cur.log| &&
    match s.mode
    case Mounted(txs, _) => forall i | 0 <= i < |txs| && txs[i].phase.Sealing? :: p != txs[i].lo + |txs[i].ents| - 1
    case Recovering(i) => s.cur.log[p] == s.dur.log[p] || CanWipe(s, i, p)
    case Forwarding => true
  }

  /** A slot wiped during recovery becomes persistent. Of an undone transaction the start record
      does so first, right after the undone data, both behind a fence. The last guard is one
      that the code does not have: no open transaction reaches up to a wiped mark. */
  ghost predicate CanWipe(s: State, i: nat, p: nat)
    requires Shape(s) && p < |s.dur.log|
  {
    var log, lo, hi := s.dur.log, s.dur.head, s.dur.tail;
    && lo <= p < hi && (Undone(log, lo, hi, p) ==> log[p].start && i == p && s.cur.data == s.dur.data)
    && (Mark(log[p]) ==> Unreached(log, lo, p))
  }

  ghost predicate CanPersistSeal(s: State, i: nat) {
    TxAt(s, i) && s.mode.txs[i].phase.Sealing? && |s.mode.txs[i].ents| > 0
  }

  /** The cleaner passes one slot. In the last generation it wipes the slot, and no
      slot of a transaction before its LE_START is known to be wiped. */
  ghost predicate CanCleanSlot(s: State, scrub: bool)
    requires Shape(s)
  {
    s.mode.Mounted? && var cl := s.mode.cl;
    && cl < s.cur.tail
    && (forall i | 0 <= i < |s.mode.txs| && Unsealed(s.mode.txs[i]) :: cl < s.mode.txs[i].lo)
    && (scrub ==> forall i | 0 <= i < |s.mode.txs| && Owns(s.mode.txs[i], cl) && s.mode.txs[i].lo < cl ::
          !s.dur.log[s.mode.txs[i].lo].live)
  }

  /** The cleaner stops between transactions. */
  ghost predicate CanCleanHead(s: State) {
    s.mode.Mounted? && s.mode.cl <= s.cur.tail
    && forall i | 0 <= i < |s.mode.txs| :: !Straddles(s.mode.txs[i], s.mode.cl)
  }

  /** pmfs_recover_journal leaves an empty journal alone, generation and all. */
  ghost predicate CanCrash(s: State) {
    s.dur.head == s.dur.tail ==> NoStray(s.dur)
  }

  ghost predicate CanRecUndo(s: State)
    requires Shape(s)
  {
    s.mode.Recovering? && s.cur.head < s.mode.i <= |s.cur.log| && Undone(s.cur.log, s.cur.head, s.mode.i, s.mode.i - 1)
  }

  ghost predicate CanRecSkip(s: State)
    requires Shape(s)
  {
    s.mode.Recovering? && s.cur.head < s.mode.i <= |s.cur.log| && !Undone(s.cur.log, s.cur.head, s.mode.i, s.mode.i - 1)
  }

  /** In the last generation the walk wipes what it has passed. */
  ghost predicate CanRecWipe(s: State, p: nat) {
    s.mode.Recovering? && s.mode.i <= p < s.cur.tail && p < |s.cur.log|
  }

  /** With everything behind a fence. */
  ghost predicate CanRecAdvance(s: State, grow: seq<bool>, head: nat)
    requires Shape(s)
  {
    s.mode.Recovering? && s.mode.i == s.cur.head && s.cur.data == s.dur.data && s.cur.log == s.dur.log
    && |s.cur.log| <= head <= |s.cur.log| + |grow|
  }

  ghost predicate CanRecDone(s: State) {
    s.mode.Forwarding? && s.cur.head == s.cur.tail == s.dur.head == s.dur.tail
  }

  ghost predicate Enabled(s: State, st: Step) {
    Shape(s) &&
    match st
    case Reserve(pad, edge, cap) => CanReserve(s, cap)
    case LogData(i, addr, len) => CanLogData(s, i, addr, len)
    case FenceLog(i) => CanFenceLog(s, i)
    case Write(i, a, v) => CanWrite(s, i, a)
    case SealCommit(i) => CanSealCommit(s, i)
    case BeginAbort(i) => CanBeginAbort(s, i)
    case UndoOne(i) => CanUndoOne(s, i)
    case SealAbort(i) => CanSealAbort(s, i)
    case PersistByte(a) => a < |s.spec|
    case PersistSlot(p) => CanPersistSlot(s, p)
    case PersistSeal(i) => CanPersistSeal(s, i)
    case PersistHeader => true
    case CleanSlot(scrub) => CanCleanSlot(s, scrub)
    case CleanHead => CanCleanHead(s)
    case Crash => CanCrash(s)
    case RecUndo => CanRecUndo(s)
    case RecSkip => CanRecSkip(s)
    case RecWipe(p) => CanRecWipe(s, p)
    case RecAdvance(grow, head) => CanRecAdvance(s, grow, head)
    case RecHead => s.mode.Forwarding?
    case RecDone => CanRecDone(s)
  }

  // Effects, one for each step.

  ghost function SetTx(s: State, i: nat, t: Tx): State
    requires s.mode.Mounted? && i < |s.mode.txs|
  {
    s.(mode := Mounted(s.mode.txs[i := t], s.mode.cl))
  }

  /** Storing one record at the next free slot of a transaction. */
  ghost function Append(s: State, i: nat, c: Cell, phase: Phase): State
    requires Shape(s) && TxAt(s, i) && |s.mode.txs[i].ents| < s.mode.txs[i].cap
  {
    var t := s.mode.txs[i];
    var p := t.lo + |t.ents|;
    SetTx(s.(cur := s.cur.(log := s.cur.log[p := c])), i, t.(ents := t.ents + [c], phase := phase))
  }

  ghost function Closing(s: State, i: nat): Cell
    requires Shape(s) && TxAt(s, i) && |s.mode.txs[i].ents| < s.mode.txs[i].cap
  {
    var t := s.mode.txs[i];
    Cell(s.cur.log[t.lo + |t.ents|].edge, true, t.ents == [], true, 0, [])
  }

  ghost function DoReserve(s: State, pad: seq<bool>, edge: bool, cap: nat): State
    requires CanReserve(s, cap)
  {
    var room := Blanks(pad) + Blanks([edge]) + Blanks(seq(cap - 1, _ => false));
    State(s.cur.(log := s.cur.log + room, tail := |s.cur.log| + |room|),
          s.dur.(log := s.dur.log + room),
          s.spec,
          Mounted(s.mode.txs + [Tx(|s.cur.log| + |pad|, cap, [], 0, Running)], s.mode.cl))
  }

  ghost function DoLogData(s: State, i: nat, addr: nat, len: nat): State
    requires Shape(s) && CanLogData(s, i, addr, len)
  {
    var t := s.mode.txs[i];
    var c := Cell(s.cur.log[t.lo + |t.ents|].edge, true, t.ents == [], false, addr, s.cur.data[addr..addr + len]);
    Append(s, i, c, Running)
  }

  ghost function DoFenceLog(s: State, i: nat): State
    requires TxAt(s, i)
  {
    SetTx(s, i, s.mode.txs[i].(fenced := |s.mode.txs[i].ents|))
  }

  ghost function DoWrite(s: State, i: nat, a: nat, v: Byte): State
    requires Shape(s) && CanWrite(s, i, a)
  {
    s.(cur := s.cur.(data := s.cur.data[a := v]))
  }

  ghost function DoSeal(s: State, i: nat, commit: bool): State
    requires Shape(s) && TxAt(s, i) && |s.mode.txs[i].ents| < s.mode.txs[i].cap
  {
    Append(s, i, Closing(s, i), Sealing(commit))
  }

  ghost function DoBeginAbort(s: State, i: nat): State
    requires TxAt(s, i)
  {
    SetTx(s, i, s.mode.txs[i].(phase := Aborting(|s.mode.txs[i].ents|)))
  }

  ghost function DoUndoOne(s: State, i: nat): State
    requires Shape(s) && CanUndoOne(s, i)
  {
    var t := s.mode.txs[i];
    var c := s.cur.log[t.lo + t.phase.left - 1];
    State(s.cur.(data := Undo(c, s.cur.data)), s.dur, s.spec,
          Mounted(s.mode.txs[i := t.(phase := Aborting(t.phase.left - 1))], s.mode.cl))
  }

  ghost function DoPersistByte(s: State, a: nat): State
    requires Shape(s) && a < |s.spec|
  {
    s.(dur := s.dur.(data := s.dur.data[a := s.cur.data[a]]))
  }

  ghost function DoPersistSlot(s: State, p: nat): State
    requires Shape(s) && p < |s.cur.log|
  {
    s.(dur := s.dur.(log := s.dur.log[p := s.cur.log[p]]))
  }

  /** The closing record becomes persistent: the moment a transaction takes effect. */
  ghost function DoPersistSeal(s: State, i: nat): State
    requires Shape(s) && CanPersistSeal(s, i)
  {
    var t := s.mode.txs[i];
    var p := t.lo + |t.ents| - 1;
    State(s.cur, s.dur.(log := s.dur.log[p := s.cur.log[p]]),
          if t.phase.commit then Overlay(s.spec, s.cur.data, t.ents) else s.spec,
          Mounted(s.mode.txs[i := t.(fenced := |t.ents|, phase := Sealed)], s.mode.cl))
  }

  ghost function DoPersistHeader(s: State): State {
    s.(dur := s.dur.(head := s.cur.head, tail := s.cur.tail))
  }

  ghost function DoCleanSlot(s: State, scrub: bool): State
    requires Shape(s) && CanCleanSlot(s, scrub)
  {
    var cl := s.mode.cl;
    s.(cur := if scrub then s.cur.(log := s.cur.log[cl := Blank(s.cur.log[cl].edge)]) else s.cur,
       mode := Mounted(s.mode.txs, cl + 1))
  }

  ghost function DoCleanHead(s: State): State
    requires CanCleanHead(s)
  {
    s.(cur := s.cur.(head := s.mode.cl))
  }

  ghost function DoCrash(s: State): State
    requires Shape(s)
  {
    if s.dur.head == s.dur.tail then
      var m := s.dur.(log := s.dur.log[..s.dur.tail]);
      State(m, m, s.spec, Mounted([], m.head))
    else
      State(s.dur, s.dur, s.spec, Recovering(s.dur.tail))
  }

  ghost function DoRecUndo(s: State): State
    requires Shape(s) && CanRecUndo(s)
  {
    var j := s.mode.i - 1;
    State(s.cur.(data := Undo(s.cur.log[j], s.cur.data)), s.dur, s.spec, Recovering(j))
  }

  ghost function DoRecSkip(s: State): State
    requires Shape(s) && CanRecSkip(s)
  {
    s.(mode := Recovering(Skip(s.cur.log, s.cur.head, s.mode.i)))
  }

  ghost function DoRecWipe(s: State, p: nat): State
    requires CanRecWipe(s, p)
  {
    s.(cur := s.cur.(log := Wiped(s.cur.log, p)))
  }

  /** pmfs_forward_journal: the new generation makes every slot of the window stale. */
  ghost function DoRecAdvance(s: State, grow: seq<bool>, head: nat): State {
    var log := s.dur.log + Blanks(grow);
    State(Img(s.cur.data, log, head, |log|), s.dur.(log := log), s.spec, Forwarding)
  }

  ghost function Next(s: State, st: Step): State
    requires Enabled(s, st)
  {
    match st
    case Reserve(pad, edge, cap) => DoReserve(s, pad, edge, cap)
    case LogData(i, addr, len) => DoLogData(s, i, addr, len)
    case FenceLog(i) => DoFenceLog(s, i)
    case Write(i, a, v) => DoWrite(s, i, a, v)
    case SealCommit(i) => DoSeal(s, i, true)
    case BeginAbort(i) => DoBeginAbort(s, i)
    case UndoOne(i) => DoUndoOne(s, i)
    case SealAbort(i) => DoSeal(s, i, false)
    case PersistByte(a) => DoPersistByte(s, a)
    case PersistSlot(p) => DoPersistSlot(s, p)
    case PersistSeal(i) => DoPersistSeal(s, i)
    case PersistHeader => DoPersistHeader(s)
    case CleanSlot(scrub) => DoCleanSlot(s, scrub)
    case CleanHead => DoCleanHead(s)
    case Crash => DoCrash(s)
    case RecUndo => DoRecUndo(s)
    case RecSkip => DoRecSkip(s)
    case RecWipe(p) => DoRecWipe(s, p)
    case RecAdvance(grow, head) => DoRecAdvance(s, grow, head)
    case RecHead => s.(cur := s.cur.(head := s.cur.tail))
    case RecDone => s.(mode := Mounted([], s.cur.head))
  }
}
