/** The loops of pmfs/journal.c over the journal's ring of slots and the file
    system's bytes: adding log entries, undoing a transaction, and recovery. */
module PmfsJournal {
  import opened PmfsUndoWalk
  import opened PmfsCleaner
  import G = PmfsGenerations

  const MAX_GEN_ID: nat := G.MAX_GEN_ID
  const ENTRY_DATA: nat := 48

  datatype Slot = Slot(gen: nat, start: bool, commit: bool, abort: bool, addr: nat, saved: seq<Byte>)

  // ------------------------------------------- the ring as a window of cells

  /** How many slots lie between head and tail. */
  function Len(head: nat, tail: nat, n: nat): nat
    requires head < n && tail < n
  {
    if head <= tail then tail - head else n - head + tail
  }

  /** The slot of window position `x`. */
  function Idx(head: nat, n: nat, x: nat): nat
    requires head < n && x < n
  {
    if head + x < n then head + x else head + x - n
  }

  /** The window position of slot `i`. */
  function PosOf(head: nat, n: nat, i: nat): nat
    requires head < n && i < n
  {
    if i >= head then i - head else i + n - head
  }

  /** The generation expected at window position `x`. */
  function GenAt(head: nat, tail: nat, gen: nat, n: nat, x: nat): nat {
    if head <= tail || head + x >= n then gen else G.PrevGenId(gen)
  }

  function CellAt(sl: seq<Slot>, head: nat, tail: nat, gen: nat, x: nat): Cell
    requires head < |sl| && tail < |sl| && x < |sl|
  {
    var i := Idx(head, |sl|, x);
    Cell(i == 0, sl[i].gen == GenAt(head, tail, gen, |sl|, x), sl[i].start, sl[i].commit || sl[i].abort,
         sl[i].addr, sl[i].saved)
  }

  function View(sl: seq<Slot>, head: nat, tail: nat, gen: nat): (v: seq<Cell>)
    requires head < |sl| && tail < |sl|
    ensures |v| == Len(head, tail, |sl|) < |sl|
    ensures forall x | 0 <= x < |v| :: v[x] == CellAt(sl, head, tail, gen, x)
  {
    seq(Len(head, tail, |sl|), x requires 0 <= x < Len(head, tail, |sl|) => CellAt(sl, head, tail, gen, x))
  }

  function AsCell(s: Slot, gen: nat): Cell {
    Cell(false, s.gen == gen, s.start, s.commit || s.abort, s.addr, s.saved)
  }

  /** The log entries pmfs_add_logentry needs for `size` bytes. */
  function NumEntries(size: nat, closing: bool): nat {
    if size == 0 then (if closing then 1 else 0) else (size + ENTRY_DATA - 1) / ENTRY_DATA
  }

  /** The `k`-th of those entries. */
  function EntrySlot(data: seq<Byte>, used: nat, k: nat, g: nat, addr: nat, size: nat, commit: bool, abort: bool): Slot
    requires addr + size <= |data| && k < NumEntries(size, commit || abort)
  {
    var from := addr + k * ENTRY_DATA;
    var to := if (k + 1) * ENTRY_DATA <= size then from + ENTRY_DATA else addr + size;
    Slot(g, used + k == 0, commit, abort, if size == 0 then 0 else from, data[from..to])
  }

  /** The length of an entry, from its place among the entries. */
  lemma EntryAt(data: seq<Byte>, used: nat, i: nat, g: nat, addr: nat, size: nat, commit: bool, abort: bool)
    requires addr + size <= |data| && i < NumEntries(size, commit || abort)
    ensures var from := addr + i * ENTRY_DATA;
            var leSize := if i == NumEntries(size, commit || abort) - 1 then size - i * ENTRY_DATA else ENTRY_DATA;
            && 0 <= leSize && from + leSize <= addr + size
            && Slot(g, used + i == 0, commit, abort, if size == 0 then 0 else from, data[from..from + leSize])
               == EntrySlot(data, used, i, g, addr, size, commit, abort)
  {
  }

  /** The scan from `j` is decided before it would run past the end of the ring. */
  predicate StaysInLap(v: seq<Cell>, j: nat)
    requires j < |v|
    decreases |v| - j
  {
    (v[j].live && v[j].fin) || j + 1 == |v|
    || (!v[j + 1].edge && ((v[j + 1].live && v[j + 1].start) || StaysInLap(v, j + 1)))
  }

  /** Nothing decides a scan from `x` before position `m`. */
  ghost predicate Undecided(v: seq<Cell>, x: nat, m: nat)
    requires m <= |v|
  {
    (forall y | x <= y < m :: !(v[y].live && v[y].fin)) && (forall y | x < y < m :: !(v[y].live && v[y].start))
  }

  lemma {:induction false} LeavesAtEdge(v: seq<Cell>, x: nat)
    requires x < |v|
    ensures !StaysInLap(v, x) <==> exists m :: x < m < |v| && v[m].edge && Undecided(v, x, m)
    decreases |v| - x
  {
    if (v[x].live && v[x].fin) || x + 1 == |v| {
    } else if v[x + 1].edge {
      assert Undecided(v, x, x + 1);
    } else if v[x + 1].live && v[x + 1].start {
    } else {
      LeavesAtEdge(v, x + 1);
      if m :| x + 1 < m < |v| && v[m].edge && Undecided(v, x + 1, m) { assert Undecided(v, x, m); }
      if m :| x < m < |v| && v[m].edge && Undecided(v, x, m) { assert Undecided(v, x + 1, m); }
    }
  }

  /** The scan for the transaction at window position `x` reads past the end of the ring exactly
      if the tail has wrapped around to a slot other than 0, `x` is before the wrap, and the
      transaction is open and the last of its lap. */
  lemma ScanLeavesIff(sl: seq<Slot>, head: nat, tail: nat, gen: nat, x: nat)
    requires head < |sl| && tail < |sl| && x < Len(head, tail, |sl|)
    ensures var v := View(sl, head, tail, gen);
            !StaysInLap(v, x) <==> 0 < tail < head && x < |sl| - head && Undecided(v, x, |sl| - head)
  {
    var v := View(sl, head, tail, gen);
    LeavesAtEdge(v, x);
    forall m | x < m < |v| ensures v[m].edge <==> m == |sl| - head {}
  }

  /** Six slots: an open transaction has slots 2 to 4 of lap 1, the last slot was too few for the
      next one, and that went to slot 0 of lap 2. */
  function LapEnd(): (sl: seq<Slot>)
    ensures |sl| == 6
  {
    var free := Slot(0, false, false, false, 0, []);
    [free, free, Slot(1, true, false, false, 0, [7]), free, free, free]
  }

  /** The scan for that transaction leaves the ring. */
  lemma ScanLeavesRing()
    ensures View(LapEnd(), 2, 1, 2)[0].live && View(LapEnd(), 2, 1, 2)[0].start
    ensures !StaysInLap(View(LapEnd(), 2, 1, 2), 0)
  {
    var v := View(LapEnd(), 2, 1, 2);
    ScanLeavesIff(LapEnd(), 2, 1, 2, 0);
    assert forall x | 0 <= x < 4 :: v[x] == CellAt(LapEnd(), 2, 1, 2, x);
    assert Undecided(v, 0, 4);
  }

  /** The entries the scan from `j` passes before it is decided, which it counts as handled
      whether it finds the transaction closed or open. */
  function HandledTx(v: seq<Cell>, j: nat): (k: nat)
    requires j < |v|
    ensures 1 <= k <= |v| - j
    decreases |v| - j
  {
    if (v[j].live && v[j].fin) || j + 1 == |v| || (v[j + 1].live && v[j + 1].start) then 1 else 1 + HandledTx(v, j + 1)
  }

  /** All entries the cleaner counts from `x` on. */
  function Handled(v: seq<Cell>, x: nat): nat
    requires x <= |v|
    decreases |v| - x
  {
    if x == |v| then 0
    else
      (if v[x].live && v[x].start then HandledTx(v, x) else 0)
      + (if CleanNext(v, x) > x then Handled(v, CleanNext(v, x)) else 0)
  }

  /** One slot of the scan. */
  lemma ScanOne(v: seq<Cell>, s: nat, j: nat)
    requires s <= j < |v|
    ensures v[j].live && v[j].fin ==> ProcessTx(v, s, j, |v|) == j + 1 && StaysInLap(v, j)
    ensures !(v[j].live && v[j].fin) && j + 1 == |v| ==> ProcessTx(v, s, j, |v|) == s && StaysInLap(v, j)
    ensures HandledTx(v, j) == if (v[j].live && v[j].fin) || j + 1 == |v| || (v[j + 1].live && v[j + 1].start) then 1
                               else 1 + HandledTx(v, j + 1)
    ensures !(v[j].live && v[j].fin) && j + 1 < |v| && v[j + 1].edge ==> !StaysInLap(v, j)
    ensures !(v[j].live && v[j].fin) && j + 1 < |v| && !v[j + 1].edge && v[j + 1].live && v[j + 1].start
            ==> ProcessTx(v, s, j, |v|) == s && StaysInLap(v, j)
    ensures !(v[j].live && v[j].fin) && j + 1 < |v| && !v[j + 1].edge && !(v[j + 1].live && v[j + 1].start)
            ==> ProcessTx(v, s, j, |v|) == ProcessTx(v, s, j + 1, |v|) && (StaysInLap(v, j) <==> StaysInLap(v, j + 1))
  {
  }

  /** Where the cleaner goes from window position `x`; it stays at an open transaction. */
  function CleanNext(v: seq<Cell>, x: nat): (r: nat)
    requires x < |v|
    ensures x <= r <= |v|
  {
    if v[x].live && v[x].start then ProcessTx(v, x, x, |v|) else x + 1
  }

  /** The cleaner, come to `x`, will come to `y`. */
  ghost predicate Visits(v: seq<Cell>, x: nat, y: nat)
    decreases |v| - x
  {
    x == y || (x < y && x < |v| && CleanNext(v, x) > x && Visits(v, CleanNext(v, x), y))
  }

  /** No scan of the cleaner from `x` on runs past the end of the ring. */
  predicate ScansStay(v: seq<Cell>, x: nat)
    requires x <= |v|
    decreases |v| - x
  {
    x == |v| || ((v[x].live && v[x].start ==> StaysInLap(v, x))
        && (CleanNext(v, x) > x ==> ScansStay(v, CleanNext(v, x))))
  }

  class UndoJournal {
    const slots: array<Slot>
    const data: array<Byte>
    var head: nat
    var tail: nat
    var gen: nat

    ghost predicate Valid()
      reads this
    {
      slots.Length > 0 && head < slots.Length && tail < slots.Length
      && slots as object != data && slots as object != this && data as object != this
    }

    ghost function Window(): (v: seq<Cell>)
      requires Valid()
      reads this, slots
    {
      View(slots[..], head, tail, gen)
    }

    /** pmfs_undo_logentry. */
    method UndoLogentry(s: Slot)
      requires Valid() && s.addr + |s.saved| <= data.Length
      modifies data
      ensures data[..] == old(data[..s.addr]) + s.saved + old(data[s.addr + |s.saved|..])
    {
      var k := 0;
      while k < |s.saved|
        invariant 0 <= k <= |s.saved|
        invariant data[..] == old(data[..s.addr]) + s.saved[..k] + old(data[s.addr + k..])
      {
        data[s.addr + k] := s.saved[k];
        k := k + 1;
      }
    }

    /** pmfs_undo_transaction on slots `b .. b + num`, highest first. */
    method UndoTransaction(b: nat, num: nat, g: nat, ghost v: seq<Cell>, ghost x: nat)
      requires Valid() && b + num <= slots.Length && x + num <= |v| && Fits(v, data.Length)
      requires forall y | x <= y < x + num :: v[y] == AsCell(slots[b + (y - x)], g).(edge := v[y].edge)
      modifies data
      ensures data[..] == Apply(v, Down(v, x, x + num), old(data[..]))
    {
      hide Apply, Down, Undo;
      var i := num;
      while i > 0
        invariant 0 <= i <= num && slots[..] == old(slots[..])
        invariant Apply(v, Down(v, x, x + i), data[..]) == Apply(v, Down(v, x, x + num), old(data[..]))
      {
        i := i - 1;
        ghost var before := data[..];
        assert v[x + i] == AsCell(slots[b + i], g).(edge := v[x + i].edge);
        ApplyTop(v, x, x + i, before);
        if slots[b + i].gen == g {
          UndoLogentry(slots[b + i]);
          UndoIsSplice(v[x + i], before, data[..]);
        } else {
          UndoDead(v[x + i], before);
        }
      }
      ApplyNone(v, x, data[..]);
    }

    /** What the walk needs to know of the slots at and below position `x0`. */
    ghost predicate Sees(v: seq<Cell>, x0: nat, t0: nat, g: nat)
      requires Valid()
      reads this, slots
    {
      && x0 < |v| < slots.Length && t0 == Idx(head, slots.Length, x0)
      && g == GenAt(head, tail, gen, slots.Length, x0)
      && forall y | 0 <= y <= x0 :: v[y] == CellAt(slots[..], head, tail, gen, y)
    }

    /** The loop of pmfs_recover_transaction that looks for the LE_START. */
    method FindGroup(t0: nat, g: nat, ghost v: seq<Cell>, ghost x0: nat)
      returns (t: nat, num: nat, startFound: bool, cmtOrAbrt: bool, ghost x: nat)
      requires Valid() && Sees(v, x0, t0, g) && v[x0].live
      ensures x == GroupLow(v, 0, x0) && t == Idx(head, slots.Length, x) && t + (x0 - x) == t0 && num == x0 - x + 1
      ensures startFound == (v[x].live && v[x].start) && cmtOrAbrt == v[x0].fin
    {
      cmtOrAbrt, startFound, num := false, false, 0;
      var done := false;
      t, x := t0, x0;
      while !done
        invariant 0 <= x <= x0 && t + (x0 - x) == t0 && t == Idx(head, slots.Length, x)
        invariant num == x0 - x + if done then 1 else 0
        invariant !done ==> GroupLow(v, 0, x) == GroupLow(v, 0, x0) && !startFound
        invariant !done && x < x0 ==> !(v[x].live && v[x].fin) && cmtOrAbrt == v[x0].fin
        invariant !done && x == x0 ==> !cmtOrAbrt
        invariant done ==> x == GroupLow(v, 0, x0) && startFound == (v[x].live && v[x].start) && cmtOrAbrt == v[x0].fin
        decreases !done, x
      {
        num := num + 1;
        assert v[x] == CellAt(slots[..], head, tail, gen, x);
        SameLap(head, tail, gen, slots.Length, t, x, x0);
        if slots[t].gen == g {
          if slots[t].commit || slots[t].abort { cmtOrAbrt := true; }
          if slots[t].start { startFound := true; }
        }
        if startFound {
          done := true;
        } else if t == 0 || t == head {
          assert x == 0 || v[x].edge;
          done := true;
        } else {
          assert v[x - 1] == CellAt(slots[..], head, tail, gen, x - 1);
          SameLap(head, tail, gen, slots.Length, t - 1, x - 1, x0);
          if slots[t - 1].gen == g && (slots[t - 1].commit || slots[t - 1].abort) {
            done := true;
          } else {
            t, x := t - 1, x - 1;
          }
        }
      }
    }

    /** pmfs_recover_transaction: the group of slots that ends at the valid slot
        `t0`, undone unless it holds a commit or abort record; in the last generation
        its slots are wiped. Returns the slot the group begins at. */
    method RecoverTransaction(t0: nat, g: nat, ghost v: seq<Cell>, ghost x0: nat) returns (t: nat, ghost x: nat)
      requires Valid() && Sees(v, x0, t0, g) && v[x0].live && Fits(v, data.Length)
      modifies slots, data
      ensures x == GroupLow(v, 0, x0) && t == Idx(head, slots.Length, x) && t + (x0 - x) == t0
      ensures data[..] == if v[x].live && v[x].start && !v[x0].fin
                          then Apply(v, Down(v, x, x0 + 1), old(data[..])) else old(data[..])
      ensures forall i | 0 <= i < slots.Length ::
                slots[i] == if g == MAX_GEN_ID && t <= i <= t0 then old(slots[i]).(gen := 0) else old(slots[i])
    {
      hide Apply, Down, Undo, GroupLow;
      var num, startFound, cmtOrAbrt;
      t, num, startFound, cmtOrAbrt, x := FindGroup(t0, g, v, x0);
      forall y | x <= y < x + num ensures v[y] == AsCell(slots[t + (y - x)], g).(edge := v[y].edge) {
        assert v[y] == CellAt(slots[..], head, tail, gen, y);
        SameLap(head, tail, gen, slots.Length, t + (y - x), y, x0);
      }
      if startFound && !cmtOrAbrt {
        UndoTransaction(t, num, g, v, x);
      }
      if g == MAX_GEN_ID {
        InvalidateLogentries(t, num);
      }
    }

    /** pmfs_invalidate_logentries: clear the generation ids of `b .. b + num`. */
    method InvalidateLogentries(b: nat, num: nat)
      requires Valid() && b + num <= slots.Length
      modifies slots
      ensures forall i | 0 <= i < slots.Length ::
                slots[i] == if b <= i < b + num then old(slots[i]).(gen := 0) else old(slots[i])
    {
      var k := 0;
      while k < num
        invariant 0 <= k <= num
        invariant forall i | 0 <= i < slots.Length ::
                    slots[i] == if b <= i < b + k then old(slots[i]).(gen := 0) else old(slots[i])
      {
        slots[b + k] := slots[b + k].(gen := 0);
        k := k + 1;
      }
    }

    /** pmfs_add_logentry for a transaction with slots `lo .. lo + cap`, `used` of
        them stored: one slot for each 48 bytes, the last with what remains. */
    method AddLogentry(lo: nat, used: nat, cap: nat, g: nat, addr: nat, size: nat, commit: bool, abort: bool)
      returns (ok: bool, newUsed: nat)
      requires Valid() && used <= cap && lo + cap <= slots.Length && addr + size <= data.Length
      modifies slots
      ensures ok <==> used + NumEntries(size, commit || abort) <= cap
      ensures newUsed == if ok then used + NumEntries(size, commit || abort) else used
      ensures forall i | 0 <= i < slots.Length ::
                slots[i] == if lo + used <= i < lo + newUsed
                            then EntrySlot(data[..], used, i - lo - used, g, addr, size, commit, abort)
                            else old(slots[i])
    {
      hide EntrySlot, NumEntries;
      newUsed := used;
      var numLes := NumEntries(size, commit || abort);
      if used + numLes > cap { return false, used; }
      var i := 0;
      while i < numLes
        invariant 0 <= i <= numLes && newUsed == used + i && data[..] == old(data[..])
        invariant forall k | 0 <= k < slots.Length ::
                    slots[k] == if lo + used <= k < lo + newUsed
                                then EntrySlot(data[..], used, k - lo - used, g, addr, size, commit, abort)
                                else old(slots[k])
      {
        EntryAt(data[..], used, i, g, addr, size, commit, abort);
        var from := addr + i * ENTRY_DATA;
        var leSize := if i == numLes - 1 then size - i * ENTRY_DATA else ENTRY_DATA;
        slots[lo + newUsed] := Slot(g, newUsed == 0, commit, abort,
            if size == 0 then 0 else from, data[from..from + leSize]);
        newUsed := newUsed + 1;
        i := i + 1;
      }
      ok := true;
    }

    /** Slots from window position `x` up are as in `v`. */
    ghost predicate SeesUp(v: seq<Cell>, x: nat)
      requires Valid()
      reads this, slots
    {
      |v| == Len(head, tail, slots.Length)
      && forall y | x <= y < |v| :: v[y] == CellAt(slots[..], head, tail, gen, y)
    }

    /** The scan of pmfs_process_transaction from the LE_START in slot `t`: how many slots it
        retires, none if the transaction is still open, and how many entries it counts as
        handled in either case. It fails when it would go past the end of the ring. */
    method ProcessTransaction(t: nat, g: nat, ghost v: seq<Cell>, ghost x: nat)
      returns (ok: bool, retired: nat, handled: nat)
      requires Valid() && SeesUp(v, x) && x < |v| && t == Idx(head, slots.Length, x)
      requires g == GenAt(head, tail, gen, slots.Length, x)
      ensures ok <==> StaysInLap(v, x)
      ensures ok ==> x + retired == ProcessTx(v, x, x, |v|) && t + retired <= slots.Length && handled == HandledTx(v, x)
    {
      hide GenAt, ProcessTx, StaysInLap, HandledTx;
      var j := 0;
      while true
        invariant 0 <= j && x + j < |v| && t + j == Idx(head, slots.Length, x + j)
        invariant StaysInLap(v, x + j) <==> StaysInLap(v, x)
        invariant ProcessTx(v, x, x + j, |v|) == ProcessTx(v, x, x, |v|) && j + HandledTx(v, x + j) == HandledTx(v, x)
        decreases |v| - j
      {
        assert v[x + j] == CellAt(slots[..], head, tail, gen, x + j);
        SameLap(head, tail, gen, slots.Length, t, x, x + j);
        ScanOne(v, x, x + j);
        if slots[t + j].gen == g && (slots[t + j].commit || slots[t + j].abort) {
          return true, j + 1, j + 1;
        }
        var newHead := if t + j + 1 == slots.Length then 0 else t + j + 1;
        if newHead == tail { assert x + j + 1 == |v|; return true, 0, j + 1; }
        assert x + j + 1 < |v| && v[x + j + 1] == CellAt(slots[..], head, tail, gen, x + j + 1);
        if t + j + 1 == slots.Length { return false, 0, 0; }
        SameLap(head, tail, gen, slots.Length, t, x, x + j + 1);
        if slots[t + j + 1].gen == g && slots[t + j + 1].start { return true, 0, j + 1; }
        j := j + 1;
      }
    }

    /** One turn of pmfs_clean_journal's loop, for slot `t`: how many slots the head can move
        over, none at an open transaction, and the entries handled. In the last generation closed transactions and
        slots of other generations are wiped; a record without its LE_START is stepped over. */
    method CleanStep(t: nat, g: nat, ghost v: seq<Cell>, ghost x: nat) returns (ok: bool, step: nat, handled: nat)
      requires Valid() && SeesUp(v, x) && x < |v| && t == Idx(head, slots.Length, x)
      requires g == GenAt(head, tail, gen, slots.Length, x)
      modifies slots
      ensures ok <==> (v[x].live && v[x].start ==> StaysInLap(v, x))
      ensures ok ==> x + step == CleanNext(v, x) && t + step <= slots.Length
      ensures ok ==> handled == if v[x].live && v[x].start then HandledTx(v, x) else 0
      ensures ok ==> forall i | 0 <= i < slots.Length ::
                slots[i] == if g == MAX_GEN_ID && t <= i < t + step
                    && !(v[x].live && !v[x].start) then old(slots[i]).(gen := 0) else old(slots[i])
    {
      hide ProcessTx, StaysInLap, HandledTx;
      assert v[x] == CellAt(slots[..], head, tail, gen, x);
      ok, step, handled := true, 1, 0;
      if slots[t].gen == g {
        if !slots[t].start { return; }
        ok, step, handled := ProcessTransaction(t, g, v, x);
        if !ok { return; }
      }
      if g == MAX_GEN_ID { InvalidateLogentries(t, step); }
    }

    /** pmfs_clean_journal: move the head over closed transactions and unused slots, wiping what
        it passes in the last generation, but for records it stepped over. It returns the
        entries handled, those of the open transaction it stops at included, and fails exactly
        if one of its scans would go past the end of the ring. */
    method CleanJournal() returns (ok: bool, total: nat, ghost moved: nat)
      requires Valid() && 1 <= gen <= MAX_GEN_ID
      modifies this`head, slots
      ensures Valid() && (ok <==> ScansStay(old(Window()), 0))
      ensures ok ==> moved == CleanTo(old(Window()), 0, |old(Window())|) && head == Idx(old(head), slots.Length, moved)
      ensures ok ==> total == Handled(old(Window()), 0)
      ensures ok ==> forall i | 0 <= i < slots.Length ::
                slots[i] == if CleanWipes(old(Window()), old(head), tail, gen, slots.Length, moved, i)
                            then old(slots[i]).(gen := 0) else old(slots[i])
    {
      hide ProcessTx, StaysInLap, CleanTo, ScansStay, CleanWipes, CleanNext, Visits, Handled, HandledTx;
      ghost var v, n := Window(), slots.Length;
      var t, g := head, if tail < head then G.PrevGenId(gen) else gen;
      ghost var x := 0;
      var stuck := false;
      ok, total, moved := true, 0, 0;
      NoneWiped(v, head, tail, gen, n);
      while t != tail && !stuck
        invariant 0 <= x <= |v| < n && head == old(head) && t == Idx(head, n, x)
        invariant g == GenAt(head, tail, gen, n, x) && Visits(v, 0, x)
        invariant forall i | 0 <= i < n ::
                    slots[i] == if CleanWipes(v, head, tail, gen, n, x, i) then old(slots[i]).(gen := 0)
                    else old(slots[i])
        invariant if stuck then CleanTo(v, 0, |v|) == x else CleanTo(v, x, |v|) == CleanTo(v, 0, |v|)
        invariant if stuck then ScansStay(v, 0) else ScansStay(v, x) <==> ScansStay(v, 0)
        invariant total + (if stuck then 0 else Handled(v, x)) == Handled(v, 0)
        decreases |v| - x, !stuck
      {
        NotWipedUp(v, old(slots[..]), slots[..], head, tail, gen, x);
        ScansHere(v, x);
        var step, handled;
        ok, step, handled := CleanStep(t, g, v, x);
        if !ok { return; }
        total := total + handled;
        CleanToStep(v, x);
        if step == 0 {
          stuck := true;
        } else {
          CleanWipesGroup(v, head, tail, gen, n, x, step, t);
          GenAtUp(head, tail, gen, n, x, step, t);
          t, x := if t + step == slots.Length then 0 else t + step, x + step;
          if t == 0 { g := G.NextGenId(g); }
        }
      }
      CleanToEnd(v);
      moved := x;
      head := t;
    }

    /** Slots that recovery wipes: those of the window in the last generation, and
        the rest of the ring past the tail if the tail is in the last generation. */
    ghost predicate Wiped(i: nat)
      requires Valid() && i < slots.Length
      reads this
    {
      var n := slots.Length;
      (PosOf(head, n, i) < Len(head, tail, n) && GenAt(head, tail, gen, n, PosOf(head, n, i)) == MAX_GEN_ID)
      || (gen == MAX_GEN_ID && i >= tail)
    }

    /** The body of pmfs_recover_undo_journal's loop, for the slot `t0` just stepped to. */
    method RecoverSlot(t0: nat, g: nat, ghost v: seq<Cell>, ghost x0: nat) returns (t: nat, ghost x: nat)
      requires Valid() && Sees(v, x0, t0, g) && Fits(v, data.Length)
      modifies slots, data
      ensures x <= x0 && t == Idx(head, slots.Length, x) && t + (x0 - x) == t0
      ensures Apply(v, Plan(v, 0, x), data[..]) == Apply(v, Plan(v, 0, x0 + 1), old(data[..]))
      ensures forall i | 0 <= i < slots.Length ::
                slots[i] == if g == MAX_GEN_ID && t <= i <= t0 then old(slots[i]).(gen := 0) else old(slots[i])
    {
      hide Apply, Down, Undo, Plan, GroupLow;
      assert v[x0] == CellAt(slots[..], head, tail, gen, x0);
      if slots[t0].gen == g {
        t, x := RecoverTransaction(t0, g, v, x0);
        PlanGroup(v, x0, old(data[..]), data[..]);
      } else {
        t, x := t0, x0;
        PlanDead(v, x);
        if g == MAX_GEN_ID { InvalidateLogentries(t, 1); }
      }
    }

    /** The loop of pmfs_recover_undo_journal, from the tail back to the head. */
    method RecoverSlots()
      requires Valid() && Fits(Window(), data.Length)
      modifies slots, data
      ensures data[..] == Recover(old(Window()), 0, |old(Window())|, old(data[..]))
      ensures forall i | 0 <= i < slots.Length ::
                slots[i] == if Passed(head, tail, gen, slots.Length, 0, i) then old(slots[i]).(gen := 0)
                    else old(slots[i])
    {
      hide Apply, Down, Undo, Plan, GroupLow;
      ghost var v, n := Window(), slots.Length;
      var t, g := tail, gen;
      ghost var x := |v|;
      while t != head
        invariant 0 <= x <= |v| && t == Idx(head, n, x)
        invariant g == GenAt(head, tail, gen, n, x)
        invariant forall i | 0 <= i < n ::
                    slots[i] == if Passed(head, tail, gen, n, x, i) then old(slots[i]).(gen := 0) else old(slots[i])
        invariant Apply(v, Plan(v, 0, x), data[..]) == Recover(v, 0, |v|, old(data[..]))
        decreases x
      {
        if t == 0 { g := G.PrevGenId(g); }
        t, x := if t == 0 then slots.Length - 1 else t - 1, x - 1;
        ghost var t0, x0 := t, x;
        NotPassed(old(slots[..]), slots[..], head, tail, gen, x0 + 1);
        t, x := RecoverSlot(t, g, v, x0);
        PassedGroup(head, tail, gen, n, x, x0, t, t0);
        SameLap(head, tail, gen, n, t, x, x0);
      }
      PlanNone(v, data[..]);
    }

    /** pmfs_recover_undo_journal with pmfs_forward_journal. */
    method RecoverUndoJournal()
      requires Valid() && Fits(Window(), data.Length)
      modifies this, slots, data
      ensures Valid() && head == tail == old(tail) && gen == G.NextGenId(old(gen))
      ensures data[..] == Recover(old(Window()), 0, |old(Window())|, old(data[..]))
      ensures forall i | 0 <= i < slots.Length ::
                slots[i] == if old(Wiped(i)) then old(slots[i]).(gen := 0) else old(slots[i])
    {
      RecoverSlots();
      if gen == MAX_GEN_ID {
        InvalidateLogentries(tail, slots.Length - tail);
      }
      gen := G.NextGenId(gen);
      head := tail;
    }
  }

  /** Slots the walk has not come to are as they were. */
  lemma NotPassed(was: seq<Slot>, now: seq<Slot>, head: nat, tail: nat, gen: nat, x: nat)
    requires |was| == |now| > 0 && head < |was| && tail < |was| && x <= Len(head, tail, |was|)
    requires forall i | 0 <= i < |was| ::
               now[i] == if Passed(head, tail, gen, |was|, x, i) then was[i].(gen := 0) else was[i]
    ensures forall y | 0 <= y < x :: CellAt(now, head, tail, gen, y) == CellAt(was, head, tail, gen, y)
  {
    forall y | 0 <= y < x ensures CellAt(now, head, tail, gen, y) == CellAt(was, head, tail, gen, y) {
      assert PosOf(head, |was|, Idx(head, |was|, y)) == y;
    }
  }

  /** The walk from the tail down to window position `x` has wiped slot `i`. */
  ghost predicate Passed(head: nat, tail: nat, gen: nat, n: nat, x: nat, i: nat)
    requires head < n && tail < n && i < n
  {
    x <= PosOf(head, n, i) < Len(head, tail, n) && GenAt(head, tail, gen, n, PosOf(head, n, i)) == MAX_GEN_ID
  }

  lemma ApplyTop(v: seq<Cell>, b: nat, i: nat, data: seq<Byte>)
    requires b <= i < |v| && Fits(v, |data|)
    ensures Apply(v, Down(v, b, i + 1), data) == Apply(v, Down(v, b, i), Undo(v[i], data))
  {
    if v[i].live {
      assert Down(v, b, i + 1) == [i] + Down(v, b, i);
      assert ([i] + Down(v, b, i))[1..] == Down(v, b, i);
    } else {
      assert Down(v, b, i + 1) == Down(v, b, i);
    }
  }

  lemma ApplyNone(v: seq<Cell>, b: nat, data: seq<Byte>)
    requires b <= |v| && Fits(v, |data|)
    ensures Apply(v, Down(v, b, b), data) == data
  {
  }

  lemma UndoDead(c: Cell, data: seq<Byte>)
    requires !c.live
    ensures Undo(c, data) == data
  {
  }

  lemma UndoIsSplice(c: Cell, data: seq<Byte>, r: seq<Byte>)
    requires c.live && c.addr + |c.saved| <= |data|
    requires r == data[..c.addr] + c.saved + data[c.addr + |c.saved|..]
    ensures r == Undo(c, data)
  {
  }

  /** The cleaner, come up to window position `x`, has passed slot `i` in the last generation. */
  ghost predicate PassedUp(head: nat, tail: nat, gen: nat, n: nat, x: nat, i: nat)
    requires head < n && i < n
  {
    PosOf(head, n, i) < x && GenAt(head, tail, gen, n, PosOf(head, n, i)) == MAX_GEN_ID
  }

  /** The cleaner, come up to window position `x`, has wiped slot `i`. */
  ghost predicate CleanWipes(v: seq<Cell>, head: nat, tail: nat, gen: nat, n: nat, x: nat, i: nat)
    requires head < n && i < n
  {
    var y := PosOf(head, n, i);
    PassedUp(head, tail, gen, n, x, i) && !(y < |v| && Visits(v, 0, y) && v[y].live && !v[y].start)
  }

  lemma NoneWiped(v: seq<Cell>, head: nat, tail: nat, gen: nat, n: nat)
    requires head < n
    ensures Visits(v, 0, 0) && forall i | 0 <= i < n :: !CleanWipes(v, head, tail, gen, n, 0, i)
  {
  }

  lemma {:induction false} VisitsOn(v: seq<Cell>, z: nat, x: nat, y: nat)
    requires Visits(v, z, x) && x < |v| && x < y <= |v|
    ensures y < CleanNext(v, x) ==> !Visits(v, z, y)
    ensures y == CleanNext(v, x) ==> Visits(v, z, y)
    decreases |v| - z
  {
    if z < x { VisitsOn(v, CleanNext(v, z), x, y); }
  }

  lemma CleanWipesGroup(v: seq<Cell>, head: nat, tail: nat, gen: nat, n: nat, x: nat, m: nat, t: nat)
    requires head < n && tail < n && |v| == Len(head, tail, n) && x < |v| && x + m == CleanNext(v, x) && 0 < m
    requires Visits(v, 0, x) && t == Idx(head, n, x) && t + m <= n
    ensures Visits(v, 0, x + m)
    ensures forall i | 0 <= i < n ::
              CleanWipes(v, head, tail, gen, n, x + m, i) <==>
                CleanWipes(v, head, tail, gen, n, x, i)
                || (t <= i < t + m && GenAt(head, tail, gen, n, x) == MAX_GEN_ID && !(v[x].live && !v[x].start))
  {
    hide Visits, CleanNext, ProcessTx;
    VisitsOn(v, 0, x, x + m);
    forall i | 0 <= i < n
      ensures CleanWipes(v, head, tail, gen, n, x + m, i) <==>
                CleanWipes(v, head, tail, gen, n, x, i)
                || (t <= i < t + m && GenAt(head, tail, gen, n, x) == MAX_GEN_ID && !(v[x].live && !v[x].start))
    {
      var y := PosOf(head, n, i);
      assert t <= i < t + m <==> x <= y < x + m;
      if t <= i < t + m {
        SameLap(head, tail, gen, n, t, x, y);
        if y > x { VisitsOn(v, 0, x, y); GroupSteps(v, x); }
      }
    }
  }

  lemma GroupSteps(v: seq<Cell>, x: nat)
    requires x < |v|
    ensures !(v[x].live && v[x].start) ==> CleanNext(v, x) == x + 1
  {
  }

  lemma ScansHere(v: seq<Cell>, x: nat)
    requires x < |v|
    ensures ScansStay(v, x) <==>
            (v[x].live && v[x].start ==> StaysInLap(v, x)) && (CleanNext(v, x) > x ==> ScansStay(v, CleanNext(v, x)))
    ensures Handled(v, x) == (if v[x].live && v[x].start then HandledTx(v, x) else 0)
                             + (if CleanNext(v, x) > x then Handled(v, CleanNext(v, x)) else 0)
  {
  }

  lemma CleanToStep(v: seq<Cell>, x: nat)
    requires x < |v|
    ensures var r := CleanNext(v, x);
            x <= r <= |v| && CleanTo(v, x, |v|) == if r == x then x else CleanTo(v, r, |v|)
  {
  }

  lemma CleanToEnd(v: seq<Cell>)
    ensures CleanTo(v, |v|, |v|) == |v| && ScansStay(v, |v|) && Handled(v, |v|) == 0
  {
  }

  /** The expected generation after moving up `m` slots from slot `t`. */
  lemma GenAtUp(head: nat, tail: nat, gen: nat, n: nat, x: nat, m: nat, t: nat)
    requires head < n && tail < n && x + m <= Len(head, tail, n) && x < n && t == Idx(head, n, x) && t + m <= n
    requires 1 <= gen <= MAX_GEN_ID
    ensures GenAt(head, tail, gen, n, x + m) ==
              if t + m == n then G.NextGenId(GenAt(head, tail, gen, n, x)) else GenAt(head, tail, gen, n, x)
  {
  }

  lemma NotWipedUp(v: seq<Cell>, was: seq<Slot>, now: seq<Slot>, head: nat, tail: nat, gen: nat, x: nat)
    requires |was| == |now| > 0 && head < |was| && tail < |was|
    requires forall i | 0 <= i < |was| ::
               now[i] == if CleanWipes(v, head, tail, gen, |was|, x, i) then was[i].(gen := 0) else was[i]
    ensures forall y | x <= y < Len(head, tail, |was|) ::
              CellAt(now, head, tail, gen, y) == CellAt(was, head, tail, gen, y)
  {
    forall y | x <= y < Len(head, tail, |was|)
      ensures CellAt(now, head, tail, gen, y) == CellAt(was, head, tail, gen, y)
    {
      assert PosOf(head, |was|, Idx(head, |was|, y)) == y;
    }
  }

  /** What one more group adds to the slots passed. */
  lemma PassedGroup(head: nat, tail: nat, gen: nat, n: nat, x: nat, x0: nat, t: nat, t0: nat)
    requires head < n && tail < n && x <= x0 < Len(head, tail, n)
    requires t == Idx(head, n, x) && t0 == Idx(head, n, x0) && t + (x0 - x) == t0
    ensures forall i | 0 <= i < n ::
              Passed(head, tail, gen, n, x, i) <==>
                Passed(head, tail, gen, n, x0 + 1, i) || (t <= i <= t0 && GenAt(head, tail, gen, n, x0) == MAX_GEN_ID)
  {
    forall i | 0 <= i < n ensures t <= i <= t0 <==> x <= PosOf(head, n, i) <= x0 {}
    forall y | x <= y <= x0 ensures GenAt(head, tail, gen, n, y) == GenAt(head, tail, gen, n, x0) {
      SameLap(head, tail, gen, n, t + (y - x), y, x0);
    }
  }

  lemma PlanDead(v: seq<Cell>, x: nat)
    requires x < |v| && !v[x].live
    ensures Plan(v, 0, x + 1) == Plan(v, 0, x)
  {
  }

  lemma PlanNone(v: seq<Cell>, data: seq<Byte>)
    requires Fits(v, |data|)
    ensures Apply(v, Plan(v, 0, 0), data) == data
  {
  }

  /** Undoing the group at the top leaves the plan for what is below it. */
  lemma PlanGroup(v: seq<Cell>, x0: nat, before: seq<Byte>, after: seq<Byte>)
    requires x0 < |v| && v[x0].live && Fits(v, |before|)
    requires var b := GroupLow(v, 0, x0);
             after == if v[b].live && v[b].start && !v[x0].fin then Apply(v, Down(v, b, x0 + 1), before) else before
    ensures Apply(v, Plan(v, 0, x0 + 1), before) == Apply(v, Plan(v, 0, GroupLow(v, 0, x0)), after)
  {
    var b := GroupLow(v, 0, x0);
    if v[b].live && v[b].start && !v[x0].fin {
      ApplyConcat(v, Down(v, b, x0 + 1), Plan(v, 0, b), before);
    } else {
      assert Plan(v, 0, x0 + 1) == [] + Plan(v, 0, b) == Plan(v, 0, b);
    }
  }

  lemma {:induction false} ApplyConcat(v: seq<Cell>, p: seq<nat>, q: seq<nat>, data: seq<Byte>)
    requires Fits(v, |data|)
    requires (forall i | 0 <= i < |p| :: p[i] < |v|) && (forall i | 0 <= i < |q| :: q[i] < |v|)
    ensures Apply(v, p + q, data) == Apply(v, q, Apply(v, p, data))
    decreases |p|
  {
    if p == [] {
      assert p + q == q;
    } else {
      assert (p + q)[1..] == p[1..] + q;
      ApplyConcat(v, p[1..], q, Undo(v[p[0]], data));
    }
  }

  /** Window positions whose slots are contiguous are in one lap. */
  lemma SameLap(head: nat, tail: nat, gen: nat, n: nat, t: nat, x: nat, x0: nat)
    requires head < n && x <= x0 < n && t == Idx(head, n, x) && t + (x0 - x) == Idx(head, n, x0)
    ensures GenAt(head, tail, gen, n, x) == GenAt(head, tail, gen, n, x0)
  {
  }

  /** The log entries pmfs_add_logentry stores for a range, as the undo loop sees them. */
  function EntryCells(data: seq<Byte>, g: nat, addr: nat, size: nat): (cells: seq<Cell>)
    requires addr + size <= |data|
    ensures |cells| == NumEntries(size, false) && Fits(cells, |data|)
    ensures forall k | 0 <= k < |cells| :: cells[k] == AsCell(EntrySlot(data, 0, k, g, addr, size, false, false), g)
  {
    seq(NumEntries(size, false), k requires 0 <= k < NumEntries(size, false) =>
      AsCell(EntrySlot(data, 0, k, g, addr, size, false, false), g))
  }

  lemma EntryCovers(data: seq<Byte>, g: nat, addr: nat, size: nat, k: nat, a: nat)
    requires addr + size <= |data| && k < NumEntries(size, false)
    ensures var c := EntryCells(data, g, addr, size)[k];
            && (Covers(c, a) <==> addr <= a < addr + size && (a - addr) / ENTRY_DATA == k)
            && (Covers(c, a) ==> c.saved[a - c.addr] == data[a])
  {
  }

  lemma EntriesRestoreByte(data: seq<Byte>, later: seq<Byte>, g: nat, addr: nat, size: nat, a: nat)
    requires addr + size <= |data| == |later| && a < |data|
    requires !(addr <= a < addr + size) ==> later[a] == data[a]
    ensures var cells := EntryCells(data, g, addr, size);
            Apply(cells, Down(cells, 0, |cells|), later)[a] == data[a]
  {
    hide Apply, Down, Covers, EntryCells;
    var cells := EntryCells(data, g, addr, size);
    var plan := Down(cells, 0, |cells|);
    DownIs(cells, 0, |cells|);
    forall j | 0 <= j < |plan|
      ensures Covers(cells[plan[j]], a) <==> addr <= a < addr + size && (a - addr) / ENTRY_DATA == plan[j]
    {
      EntryCovers(data, g, addr, size, plan[j], a);
    }
    if addr <= a < addr + size {
      var k := (a - addr) / ENTRY_DATA;
      EntryCovers(data, g, addr, size, k, a);
      assert k in plan;
      var i :| 0 <= i < |plan| && plan[i] == k;
      ApplyLast(cells, plan, later, a, i);
    } else {
      ApplyElsewhere(cells, plan, later, a);
    }
  }

  /** Splitting a range into entries loses nothing: whatever is stored to the range
      afterwards, undoing its entries brings the old bytes back. */
  lemma EntriesRestore(data: seq<Byte>, later: seq<Byte>, g: nat, addr: nat, size: nat)
    requires addr + size <= |data| == |later|
    requires forall a | 0 <= a < |data| && !(addr <= a < addr + size) :: later[a] == data[a]
    ensures var cells := EntryCells(data, g, addr, size);
            Apply(cells, Down(cells, 0, |cells|), later) == data
  {
    forall a | 0 <= a < |data| { EntriesRestoreByte(data, later, g, addr, size, a); }
  }
}
