/** How pmfs_new_transaction finds room in the journal (pmfs/journal.c). The head is read once.
    If room is short the cleaner is called, up to three times, and what it says it handled is
    taken for free, the entries of an open transaction included. When the tail wraps around
    the test is repeated with the head read before. */
module PmfsReserve {
  import opened PmfsUndoWalk
  import opened PmfsCleaner
  import opened PmfsJournal
  import G = PmfsGenerations

  datatype Ring = Ring(sl: seq<Slot>, head: nat, tail: nat, gen: nat)

  predicate OK(r: Ring) { r.head < |r.sl| && r.tail < |r.sl| && 1 <= r.gen <= MAX_GEN_ID }

  function Win(r: Ring): (v: seq<Cell>)
    requires OK(r)
    ensures |v| == Len(r.head, r.tail, |r.sl|) < |r.sl|
  {
    View(r.sl, r.head, r.tail, r.gen)
  }

  /** avail_size, in slots. */
  function Avail(head: nat, tail: nat, n: nat): int {
    (if tail >= head then n - (tail - head) else head - tail) - 1
  }

  /** Where the cleaner stops in a window. */
  function Stop(v: seq<Cell>): (x: nat)
    ensures x <= |v|
  {
    CleanTo(v, 0, |v|)
  }

  /** The ring after one call of the cleaner. */
  ghost function Swept(r: Ring): (r': Ring)
    requires OK(r)
    ensures OK(r') && |r'.sl| == |r.sl| && r'.tail == r.tail && r'.gen == r.gen
  {
    var v, n := Win(r), |r.sl|;
    Ring(seq(n, i requires 0 <= i < n =>
           if CleanWipes(v, r.head, r.tail, r.gen, n, Stop(v), i) then r.sl[i].(gen := 0) else r.sl[i]),
         Idx(r.head, n, Stop(v)), r.tail, r.gen)
  }

  /** The ring with the outcome of the test; `Astray` if a scan of the cleaner left the ring. */
  datatype Tested = Passed(r: Ring, moved: nat) | Refused(r: Ring) | Astray

  /** At most `k` calls of the cleaner, until enough is reported. */
  ghost function Retry(r: Ring, avail: int, req: nat, k: nat, freed: nat, moved: nat): (t: Tested)
    requires OK(r)
    ensures !t.Astray? ==> OK(t.r) && |t.r.sl| == |r.sl| && t.r.tail == r.tail && t.r.gen == r.gen
    decreases k
  {
    if k == 0 then Refused(r)
    else if !ScansStay(Win(r), 0) then Astray
    else
      var f, m := freed + Handled(Win(r), 0), moved + Stop(Win(r));
      if avail + f >= req then Passed(Swept(r), m) else Retry(Swept(r), avail, req, k - 1, f, m)
  }

  /** The test, with the head that was read at the beginning. */
  ghost function Test(read: nat, r: Ring, req: nat): (t: Tested)
    requires OK(r)
    ensures !t.Astray? ==> OK(t.r) && |t.r.sl| == |r.sl| && t.r.tail == r.tail && t.r.gen == r.gen
  {
    var avail := Avail(read, r.tail, |r.sl|);
    if avail >= req then Passed(r, 0) else Retry(r, avail, req, 3, 0, 0)
  }

  /** The tail wrapped around. */
  function Front(r: Ring): (r': Ring)
    requires OK(r)
    ensures OK(r') && |r'.sl| == |r.sl|
  {
    Ring(r.sl, r.head, 0, G.NextGenId(r.gen))
  }

  datatype Outcome = Full | Lost | Got(base: nat)

  /** The outcome, the journal, and how many slots before the reservation are in use or skipped. */
  datatype End = End(out: Outcome, r: Ring, used: int)

  ghost function Reserve(t: Tested, r: Ring, req: nat, used: int): End {
    match t
    case Refused(r') => End(Full, r', 0)
    case Astray => End(Lost, r, 0)
    case Passed(r', moved) => End(Got(r'.tail), r'.(tail := r'.tail + req), used - moved)
  }

  ghost function NewTx(r: Ring, req: nat): End
    requires OK(r)
  {
    var t, used := Test(r.head, r, req), Len(r.head, r.tail, |r.sl|);
    if !t.Passed? || r.tail + req < |r.sl| then Reserve(t, r, req, used)
    else Reserve(Test(r.head, Front(t.r), req), r, req, used - t.moved + (|r.sl| - r.tail))
  }

  ghost function RingOf(j: UndoJournal): Ring
    reads j, j.slots
  {
    Ring(j.slots[..], j.head, j.tail, j.gen)
  }

  lemma SweptIs(was: Ring, now: seq<Slot>, head: nat, moved: nat)
    requires OK(was) && |now| == |was.sl| && moved == Stop(Win(was)) && head == Idx(was.head, |was.sl|, moved)
    requires forall i | 0 <= i < |now| ::
               now[i] == if CleanWipes(Win(was), was.head, was.tail, was.gen, |now|, moved, i)
                         then was.sl[i].(gen := 0) else was.sl[i]
    ensures Ring(now, head, was.tail, was.gen) == Swept(was)
  {
    hide CleanWipes, Stop;
    assert now == Swept(was).sl;
  }

  /** The calls of the cleaner when `avail` slots are too few. */
  method MakeRoom(j: UndoJournal, avail: int, req: nat) returns (ok: bool, full: bool, ghost moved: nat)
    requires j.Valid() && 1 <= j.gen <= MAX_GEN_ID
    modifies j`head, j.slots
    ensures var t := Retry(old(RingOf(j)), avail, req, 3, 0, 0);
            && (ok <==> !t.Astray?)
            && (ok ==>
                j.Valid() && RingOf(j) == t.r && (full <==> t.Refused?) && (!full ==> t == Passed(RingOf(j), moved)))
  {
    hide Swept, ScansStay, Handled, CleanWipes, CleanTo;
    ghost var r0 := RingOf(j);
    var freed: nat, retry: nat := 0, 0;
    full, moved := false, 0;
    while retry < 3
      invariant j.Valid() && retry <= 3 && RingOf(j).gen == r0.gen && RingOf(j).tail == r0.tail
      invariant Retry(RingOf(j), avail, req, 3 - retry, freed, moved) == Retry(r0, avail, req, 3, 0, 0)
    {
      ghost var r := RingOf(j);
      var total;
      ghost var m;
      ok, total, m := j.CleanJournal();
      if !ok { return; }
      SweptIs(r, j.slots[..], j.head, m);
      freed, retry, moved := freed + total, retry + 1, moved + m;
      if avail + freed >= req { return true, false, moved; }
    }
    return true, true, 0;
  }

  /** pmfs_new_transaction up to the new tail, for `req` slots. */
  method NewTransaction(j: UndoJournal, req: nat) returns (out: Outcome, ghost used: int)
    requires j.Valid() && 1 <= j.gen <= MAX_GEN_ID && 0 < req < j.slots.Length
    modifies j`head, j`tail, j`gen, j.slots
    ensures out == NewTx(old(RingOf(j)), req).out && (out.Got? ==> used == NewTx(old(RingOf(j)), req).used)
    ensures out != Lost ==> j.Valid() && RingOf(j) == NewTx(old(RingOf(j)), req).r
  {
    hide Retry;
    var n, head, tail, again := j.slots.Length, j.head, j.tail, false;
    ghost var r0 := RingOf(j);
    used := Len(head, tail, n);
    while true
      invariant j.Valid() && 1 <= j.gen <= MAX_GEN_ID && j.tail == tail < n
      invariant !again ==> RingOf(j) == r0 && used == Len(head, tail, n)
      invariant again ==> tail == 0 && Reserve(Test(head, RingOf(j), req), r0, req, used) == NewTx(r0, req)
      decreases !again
    {
      ghost var r := RingOf(j);
      var avail := Avail(head, tail, n);
      ghost var moved := 0;
      if avail < req {
        var ok, full;
        ok, full, moved := MakeRoom(j, avail, req);
        if !ok { return Lost, 0; }
        if full { return Full, 0; }
      }
      assert Test(head, r, req) == Passed(RingOf(j), moved);
      used := used - moved;
      if tail + req < n {
        j.tail := tail + req;
        return Got(tail), used;
      }
      used, tail, again := used + (n - tail), 0, true;
      j.tail, j.gen := 0, G.NextGenId(j.gen);
    }
  }

  // ------------------------------------------------------- what the calls report

  /** The entries of the open transaction that the cleaner stops at. */
  function OpenLen(v: seq<Cell>): nat { if Stop(v) < |v| then HandledTx(v, Stop(v)) else 0 }

  /** What three calls of the cleaner report: the open transaction is counted in each. */
  function Reported(v: seq<Cell>): nat { Handled(v, 0) + 2 * OpenLen(v) }

  lemma {:induction false} StopOpen(v: seq<Cell>, x: nat)
    requires x <= |v|
    ensures var m := CleanTo(v, x, |v|); m < |v| ==> v[m].live && v[m].start && ProcessTx(v, m, m, |v|) == m
    ensures var m := CleanTo(v, x, |v|); ScansStay(v, x) && m < |v| ==> StaysInLap(v, m)
    decreases |v| - x
  {
    if x < |v| && CleanNext(v, x) > x { StopOpen(v, CleanNext(v, x)); }
  }

  /** More is reported than the head moves by at most the entries of the open transaction. */
  lemma {:induction false} HandledMoved(v: seq<Cell>, x: nat)
    requires x <= |v|
    ensures var m := CleanTo(v, x, |v|); Handled(v, x) <= m - x + (if m < |v| then HandledTx(v, m) else 0)
    decreases |v| - x
  {
    if x < |v| && CleanNext(v, x) > x {
      HandledMoved(v, CleanNext(v, x));
      if v[x].live && v[x].start { HandledClosed(v, x, x); }
    }
  }

  lemma {:induction false} HandledClosed(v: seq<Cell>, x: nat, j: nat)
    requires x <= j < |v| && ProcessTx(v, x, j, |v|) > x
    ensures j + HandledTx(v, j) == ProcessTx(v, x, j, |v|)
    decreases |v| - j
  {
    if !(v[j].live && v[j].fin) { HandledClosed(v, x, j + 1); }
  }

  lemma {:induction false} ScanShift(v: seq<Cell>, s: nat, x: nat, j: nat)
    requires s <= x <= j < |v|
    ensures ProcessTx(v[s..], x - s, j - s, |v| - s) == ProcessTx(v, x, j, |v|) - s
    ensures StaysInLap(v[s..], j - s) == StaysInLap(v, j) && HandledTx(v[s..], j - s) == HandledTx(v, j)
    decreases |v| - j
  {
    if j + 1 < |v| { ScanShift(v, s, x, j + 1); }
  }

  /** The window after a call is what was left of it. */
  lemma SweptWin(r: Ring)
    requires OK(r)
    ensures Win(Swept(r)) == Win(r)[Stop(Win(r))..]
  {
    hide CleanWipes, CleanTo;
    var v, r' := Win(r), Swept(r);
    var m, n := Stop(v), |r.sl|;
    NotWipedUp(v, r.sl, r'.sl, r.head, r.tail, r.gen, m);
    forall y | 0 <= y < |v| - m ensures Win(r')[y] == v[m + y] {
      assert CellAt(r'.sl, r.head, r.tail, r.gen, m + y) == v[m + y];
    }
  }

  /** A second call moves nothing and reports the open transaction once more. */
  lemma SweepAgain(r: Ring)
    requires OK(r) && ScansStay(Win(r), 0)
    ensures var w := Win(Swept(r)); ScansStay(w, 0) && Stop(w) == 0 && Handled(w, 0) == OpenLen(Win(r)) == OpenLen(w)
    ensures Swept(Swept(r)) == Swept(r)
  {
    var v, r' := Win(r), Swept(r);
    var m := Stop(v);
    SweptWin(r);
    StopOpen(v, 0);
    if m < |v| { ScanShift(v, m, m, m); }
    SweptStill(r');
  }

  lemma SweptStill(r: Ring)
    requires OK(r) && Stop(Win(r)) == 0
    ensures Swept(r) == r
  {
    assert Swept(r).sl == r.sl;
  }

  /** The test in closed form. */
  lemma TestIs(read: nat, r: Ring, req: nat)
    requires OK(r)
    ensures var v, avail := Win(r), Avail(read, r.tail, |r.sl|);
            Test(read, r, req) ==
              if avail >= req then Passed(r, 0)
              else if !ScansStay(v, 0) then Astray
              else if avail + Reported(v) >= req then Passed(Swept(r), Stop(v)) else Refused(Swept(r))
  {
    hide Win, Swept, ScansStay, Handled, OpenLen, Stop;
    var v, avail := Win(r), Avail(read, r.tail, |r.sl|);
    if avail < req && ScansStay(v, 0) {
      SweepAgain(r);
      var r', f := Swept(r), Handled(v, 0);
      assert Retry(r', avail, req, 0, f + 2 * OpenLen(v), Stop(v)) == Refused(r');
      assert Retry(r', avail, req, 1, f + OpenLen(v), Stop(v))
             == if avail + f + 2 * OpenLen(v) >= req then Passed(r', Stop(v)) else Refused(r');
      assert Retry(r', avail, req, 2, f, Stop(v))
             == if avail + f + 2 * OpenLen(v) >= req then Passed(r', Stop(v)) else Refused(r');
    }
  }

  // ------------------------------------------------------------ when it is safe

  /** The slots in use before the reservation and the reservation leave a slot of the ring over. */
  ghost predicate Safe(e: End, req: nat, n: nat) { e.out.Got? ==> e.used + req < n }

  /** Slot `i` is among the `used` slots before slot `base`. */
  predicate InUse(i: nat, base: nat, used: int, n: nat) { (if i < base then base - i else base + n - i) <= used }

  /** Short of the slot left over, a reservation is unsafe exactly if it has a slot in use. */
  lemma UnsafeOverlaps(base: nat, req: nat, used: int, n: nat)
    requires base + req <= n && 0 < req
    ensures used + req > n <==> exists i :: base <= i < base + req && InUse(i, base, used, n)
  {
    if used + req > n { assert InUse(base + req - 1, base, used, n); }
  }

  /** The test takes `avail` slots for free, and lets a reservation through. */
  predicate Passes(avail: int, v: seq<Cell>, req: nat) {
    avail >= req || (ScansStay(v, 0) && avail + Reported(v) >= req)
  }

  /** ... although, with `room` slots free, there is no room. */
  predicate Short(avail: int, room: int, v: seq<Cell>, req: nat) {
    Passes(avail, v, req) && room + (if avail >= req then 0 else Stop(v)) < req
  }

  /** The ring after the first test, if that passes. */
  ghost function Tried(r: Ring, req: nat): (r': Ring)
    requires OK(r)
    ensures OK(r') && |r'.sl| == |r.sl| && r'.tail == r.tail && r'.gen == r.gen
  {
    if Avail(r.head, r.tail, |r.sl|) >= req then r else Swept(r)
  }

  /** What is really free at the front once the tail has wrapped around. */
  ghost function FrontRoom(r: Ring, req: nat): int
    requires OK(r)
  {
    |r.sl| - 1 - |Win(Tried(r, req))| - (|r.sl| - r.tail)
  }

  /** For every ring, head, tail and request: slots in use are given away exactly if the test
      passes though there is no room, at the tail or, when the tail wraps around, at the front,
      where the head read before counts and not the one the cleaner has moved. */
  lemma SpaceTestIff(r: Ring, req: nat)
    requires OK(r) && 0 < req < |r.sl|
    ensures var n, v := |r.sl|, Win(r);
            var avail := Avail(r.head, r.tail, n);
            Safe(NewTx(r, req), req, n) <==>
              if r.tail + req < n then !Short(avail, avail, v, req)
              else !(Passes(avail, v, req)
                     && Short(Avail(r.head, 0, n), FrontRoom(r, req), Win(Front(Tried(r, req))), req))
  {
    hide Win, Swept, ScansStay, Reported, Stop, Test;
    TestIs(r.head, r, req);
    SweptLen(r);
    var t := Test(r.head, r, req);
    if t.Passed? && r.tail + req >= |r.sl| { TestIs(r.head, Front(t.r), req); }
  }

  lemma SweptLen(r: Ring)
    requires OK(r)
    ensures |Win(Swept(r))| == |Win(r)| - Stop(Win(r))
  {
    SweptWin(r);
  }

  /** At the tail that takes an open transaction at the head, or where the cleaner has moved it,
      whose entries make up for the slots that are missing. */
  lemma ShortIsOpen(avail: int, v: seq<Cell>, req: nat)
    ensures Short(avail, avail, v, req) <==>
            && avail < req && ScansStay(v, 0) && Stop(v) < |v| && v[Stop(v)].live && v[Stop(v)].start
            && avail + Stop(v) < req <= avail + Handled(v, 0) + 2 * HandledTx(v, Stop(v))
  {
    StopOpen(v, 0);
    HandledMoved(v, 0);
  }

  /** The slots from the tail to the end of the ring, left over when the tail wraps around. */
  function Pad(r: Ring): (p: seq<Cell>)
    requires OK(r)
  {
    seq(|r.sl| - r.tail, k requires 0 <= k < |r.sl| - r.tail =>
      AsCell(r.sl[r.tail + k], r.gen).(edge := r.tail + k == 0))
  }

  /** The window that the second test sees: with the head at slot 0, nothing; with the head in the
      tail's lap, what is left and the slots skipped. */
  lemma FrontWin(r: Ring)
    requires OK(r) && r.head <= r.tail
    ensures Win(Front(r)) == if r.head == 0 then [] else Win(r) + Pad(r)
  {
    G.GenRound(r.gen);
    if r.head > 0 {
      var w, n := Win(Front(r)), |r.sl|;
      assert |w| == n - r.head && |Win(r)| == r.tail - r.head && |Pad(r)| == n - r.tail;
      forall y | 0 <= y < |w| ensures w[y] == (Win(r) + Pad(r))[y] {
        var i := r.head + y;
        assert w[y] == AsCell(r.sl[i], r.gen);
        if y < |Win(r)| {
          assert Win(r)[y] == AsCell(r.sl[i], r.gen);
        } else {
          assert Pad(r)[y - |Win(r)|] == AsCell(r.sl[i], r.gen);
        }
      }
    }
  }

  // --------------------------------------------------------------- two rings

  /** A scan from `x` that is decided at `m` and finds the transaction open. */
  lemma {:induction false} OpenScan(v: seq<Cell>, x: nat, j: nat, m: nat)
    requires x <= j < m <= |v| && Undecided(v, x, m) && (m == |v| || (v[m].live && v[m].start))
    requires forall y | x < y <= m && y < |v| :: !v[y].edge
    ensures ProcessTx(v, x, j, |v|) == x && StaysInLap(v, j) && HandledTx(v, j) == m - j
    decreases m - j
  {
    if j + 1 < m { OpenScan(v, x, j + 1, m); }
  }

  const Blank: Slot := Slot(0, false, false, false, 0, [])

  /** Sixteen slots. An open transaction has slots 8 to 12, the next one begins at 13, and the tail
      has wrapped around to 6: one slot is free. */
  function OpenAtHead(): Ring {
    Ring([Blank, Blank, Blank, Blank, Blank, Blank, Blank, Blank, Slot(1, true, false, false, 0, [7]), Blank, Blank,
          Blank, Blank, Slot(1, true, false, false, 1, [7]), Blank, Blank], 8, 6, 2)
  }

  /** Three slots are given away, two of them in use: the cleaner reports five. */
  lemma OpenReserves()
    ensures OK(OpenAtHead()) && NewTx(OpenAtHead(), 3).out == Got(6) && NewTx(OpenAtHead(), 3).used == 14
    ensures !Safe(NewTx(OpenAtHead(), 3), 3, 16)
  {
    hide Swept, ProcessTx, HandledTx, StaysInLap, Win;
    var r := OpenAtHead();
    var v := Win(r);
    OpenAtHeadWin();
    OpenScan(v, 0, 0, 5);
    TestIs(8, r, 3);
  }

  lemma OpenAtHeadWin()
    ensures OK(OpenAtHead()) && |OpenAtHead().sl| == 16 && |Win(OpenAtHead())| == 14
    ensures var v := Win(OpenAtHead());
            && v[0].live && v[0].start && v[5].live && v[5].start && Undecided(v, 0, 5)
            && forall y | 0 < y <= 5 :: !v[y].edge
  {
    var r := OpenAtHead();
    var v := Win(r);
    assert |v| == 14;
    assert forall x | 0 <= x < 14 :: v[x] == CellAt(r.sl, 8, 6, 2, x);
  }

  /** Eight slots. Slot 0 has a closed transaction, slots 1 to 4 an open one. */
  function ClosedAtFront(): Ring {
    Ring([Slot(1, true, true, false, 0, []), Slot(1, true, false, false, 0, [7]), Blank, Blank, Blank, Blank, Blank,
        Blank],
         0, 5, 1)
  }

  /** Three slots wanted: slot 0 is freed, the tail wraps around, the head read before is slot 0,
      and slots 0 to 2 are given away though 1 and 2 are in use. */
  lemma StaleReserves()
    ensures OK(ClosedAtFront()) && NewTx(ClosedAtFront(), 3).out == Got(0) && NewTx(ClosedAtFront(), 3).used == 7
    ensures !Safe(NewTx(ClosedAtFront(), 3), 3, 8)
  {
    hide Swept, ProcessTx, HandledTx, StaysInLap;
    var r := ClosedAtFront();
    var v := Win(r);
    assert |v| == 5;
    assert forall x | 0 <= x < 5 :: v[x] == CellAt(r.sl, 0, 5, 1, x);
    assert v[0].live && v[0].fin && v[1].live && v[1].start && Undecided(v, 1, 5);
    ScanOne(v, 0, 0);
    OpenScan(v, 1, 1, 5);
    assert CleanNext(v, 0) == 1 && CleanNext(v, 1) == 1;
    assert Stop(v) == 1 && ScansStay(v, 0);
    TestIs(0, r, 3);
    TestIs(0, Front(Swept(r)), 3);
  }
}
