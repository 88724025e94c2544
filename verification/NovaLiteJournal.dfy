/** The lite journal of NOVA (nova/journal.c): a one-page ring of undo entries per processor.
    Entries of a transaction are filled in and made persistent before the tail moves, the tail
    before the first store, the stores before the head; recovery undoes the entries between
    head and tail in forward order. */
module NovaLiteJournal {
  type Mem = map<nat, nat>

  function Get(m: Mem, a: nat): nat { if a in m then m[a] else 0 }

  ghost predicate Same(m: Mem, m': Mem) { forall a :: Get(m, a) == Get(m', a) }

  datatype Rec = Rec(addr: nat, old': nat)

  // --------------------------------------------------------------- pointers

  const PAGE: nat := 4096
  const ENTRY: nat := 32
  const SLOTS: nat := 128

  /** next_lite_journal on byte addresses. */
  function NextPtr(p: nat): nat { if p % PAGE + ENTRY >= PAGE then p - p % PAGE else p + ENTRY }

  /** The address of slot `i` of the journal page at `base`. */
  function Ptr(base: nat, i: nat): nat { base + ENTRY * i }

  /** Stepping the pointer steps the slot number around the ring. */
  lemma NextPtrSlot(base: nat, i: nat)
    requires base % PAGE == 0 && i < SLOTS
    ensures NextPtr(Ptr(base, i)) == Ptr(base, (i + 1) % SLOTS)
  {
    PtrOffset(base, i);
  }

  lemma PtrOffset(base: nat, i: nat)
    requires base % PAGE == 0 && i < SLOTS
    ensures Ptr(base, i) % PAGE == ENTRY * i
  {
  }

  function Slot(head: nat, i: nat): (s: nat)
    ensures s < SLOTS
  {
    (head + i) % SLOTS
  }

  /** Entries between two slots. */
  function Len(head: nat, tail: nat): (n: nat)
    requires head < SLOTS && tail < SLOTS
    ensures n < SLOTS && Slot(head, n) == tail && (n == 0 <==> head == tail)
  {
    if head <= tail then tail - head else tail + SLOTS - head
  }

  /** Distinct places of a transaction are distinct slots, and a transaction of fewer than 128
      entries never makes the ring look empty. */
  lemma SlotsApart(head: nat, i: nat, j: nat)
    requires head < SLOTS && i < j < SLOTS
    ensures Slot(head, i) != Slot(head, j) && Slot(head, j) != head && Len(head, Slot(head, j)) == j
  {
    assert Slot(head, i) == if head + i < SLOTS then head + i else head + i - SLOTS;
    assert Slot(head, j) == if head + j < SLOTS then head + j else head + j - SLOTS;
  }

  lemma NextSlot(head: nat, i: nat)
    ensures (Slot(head, i) + 1) % SLOTS == Slot(head, i + 1)
  {
  }

  type Ring = s: seq<Rec> | |s| == SLOTS witness seq(SLOTS, _ => Rec(0, 0))

  /** The entries between head and tail. */
  function Window(ring: Ring, head: nat, n: nat): (w: seq<Rec>)
    ensures |w| == n && forall i | 0 <= i < n :: w[i] == ring[Slot(head, i)]
  {
    seq(n, i requires 0 <= i < n => ring[Slot(head, i)])
  }

  // --------------------------------------------------------------- flushing

  /** nova_flush_journal_in_batch: the byte ranges written back. */
  function FlushRanges(head: nat, tail: nat): seq<(nat, nat)> {
    if head < tail then [(head, tail)]
    else [(head, head - head % PAGE + PAGE), (tail - tail % PAGE, tail)]
  }

  /** Every entry of the window lies whole in a range written back, wherever the ring wraps. */
  lemma FlushCovers(base: nat, head: nat, tail: nat, i: nat)
    requires base % PAGE == 0 && head < SLOTS && tail < SLOTS && i < Len(head, tail)
    ensures exists r :: r in FlushRanges(Ptr(base, head), Ptr(base, tail))
              && r.0 <= Ptr(base, Slot(head, i)) && Ptr(base, Slot(head, i)) + ENTRY <= r.1
  {
    hide Ptr, Slot;
    var h, t, s := Ptr(base, head), Ptr(base, tail), Ptr(base, Slot(head, i));
    SlotIs(head, i);
    PtrIs(base, head);
    PtrIs(base, tail);
    PtrIs(base, Slot(head, i));
    var r := if head < tail then (h, t) else if head + i < SLOTS then (h, base + PAGE) else (base, t);
    var rs := FlushRanges(h, t);
    assert head < tail ==> rs[0] == r;
    assert head >= tail ==> rs[0] == (h, base + PAGE) && rs[1] == (base, t);
    assert r in rs;
  }

  lemma SlotIs(head: nat, i: nat)
    requires head < SLOTS && i < SLOTS
    ensures Slot(head, i) == if head + i < SLOTS then head + i else head + i - SLOTS
  {
  }

  lemma PtrIs(base: nat, i: nat)
    requires base % PAGE == 0 && i < SLOTS
    ensures Ptr(base, i) == base + ENTRY * i && Ptr(base, i) - Ptr(base, i) % PAGE == base
  {
  }

  // ------------------------------------------------------------------- undo

  /** nova_recover_lite_journal: forward over the entries. */
  function Undo(m: Mem, w: seq<Rec>): Mem
    decreases |w|
  {
    if w == [] then m else Undo(m[w[0].addr := w[0].old'], w[1..])
  }

  ghost predicate Logged(w: seq<Rec>, a: nat) { exists i :: 0 <= i < |w| && w[i].addr == a }

  /** What every entry saved is the value in `m`. */
  ghost predicate Captured(w: seq<Rec>, m: Mem) { forall i | 0 <= i < |w| :: w[i].old' == Get(m, w[i].addr) }

  ghost predicate OnlyLogged(w: seq<Rec>, m: Mem, m': Mem) { forall a | !Logged(w, a) :: Get(m', a) == Get(m, a) }

  /** Forward undo, repeated addresses or not: since all entries saved values of one moment,
      it gives back that moment's memory exactly if nothing else was changed. */
  lemma {:induction false} UndoIff(m: Mem, m': Mem, w: seq<Rec>)
    requires Captured(w, m)
    ensures Same(Undo(m', w), m) <==> OnlyLogged(w, m, m')
    decreases |w|
  {
    if w == [] {
      assert forall a :: !Logged(w, a);
    } else {
      var n := m'[w[0].addr := w[0].old'];
      assert forall i | 0 <= i < |w[1..]| :: w[1..][i] == w[i + 1];
      UndoIff(m, n, w[1..]);
      forall a ensures Logged(w, a) <==> a == w[0].addr || Logged(w[1..], a) { LoggedFirst(w, a); }
      assert Get(n, w[0].addr) == Get(m, w[0].addr);
    }
  }

  lemma LoggedFirst(w: seq<Rec>, a: nat)
    requires w != []
    ensures Logged(w, a) <==> a == w[0].addr || Logged(w[1..], a)
  {
    if Logged(w, a) {
      var i :| 0 <= i < |w| && w[i].addr == a;
      if i > 0 { assert w[1..][i - 1].addr == a; }
    }
    if Logged(w[1..], a) {
      var i :| 0 <= i < |w[1..]| && w[1..][i].addr == a;
      assert w[i + 1].addr == a;
    }
  }
}
