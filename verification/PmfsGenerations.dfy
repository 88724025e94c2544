/** The 16-bit generation ids of the PMFS journal across unboundedly many laps of
    the ring (pmfs/journal.c).

    Laps are numbered without bound; a slot remembers the lap it was last stored in,
    0 for a slot that was wiped or never stored. The code sees only `GenOf(lap)`. */
module PmfsGenerations {
  const MAX_GEN_ID: nat := 65535

  function GenOf(lap: nat): (g: nat)
    ensures g <= MAX_GEN_ID && (g == 0 <==> lap == 0)
  {
    if lap == 0 then 0 else (lap - 1) % MAX_GEN_ID + 1
  }

  /** next_gen_id on uint16_t: 0 is skipped. */
  function NextGenId(g: nat): nat { if (g + 1) % 0x1_0000 == 0 then 1 else (g + 1) % 0x1_0000 }

  /** prev_gen_id on uint16_t: 0 is skipped. */
  function PrevGenId(g: nat): nat { if g == 1 then MAX_GEN_ID else (g + 0xFFFF) % 0x1_0000 }

  lemma GenRound(g: nat)
    requires 1 <= g <= MAX_GEN_ID
    ensures 1 <= NextGenId(g) <= MAX_GEN_ID && PrevGenId(NextGenId(g)) == g
  {
  }

  /** The laps between two reuses of an id. */
  function Cycle(lap: nat): nat { if lap == 0 then 0 else (lap - 1) / MAX_GEN_ID }

  lemma GenSteps(lap: nat)
    requires lap >= 1
    ensures GenOf(lap + 1) == NextGenId(GenOf(lap))
    ensures lap >= 2 ==> GenOf(lap - 1) == PrevGenId(GenOf(lap))
    ensures Cycle(lap + 1) == if GenOf(lap) == MAX_GEN_ID then Cycle(lap) + 1 else Cycle(lap)
  {
    DivNext(lap - 1);
    if lap >= 2 { DivNext(lap - 2); }
  }

  lemma DivNext(x: nat)
    ensures (x + 1) / MAX_GEN_ID == x / MAX_GEN_ID + if x % MAX_GEN_ID + 1 == MAX_GEN_ID then 1 else 0
    ensures (x + 1) % MAX_GEN_ID == if x % MAX_GEN_ID + 1 == MAX_GEN_ID then 0 else x % MAX_GEN_ID + 1
  {
  }

  lemma GenDecides(l: nat, m: nat)
    requires l >= 1 && m >= 1 && Cycle(l) == Cycle(m) && GenOf(l) == GenOf(m)
    ensures l == m
  {
  }

  /** A point of the journal: slot `idx` of lap `lap`. */
  datatype Pos = Pos(lap: nat, idx: nat)

  predicate Before(p: Pos, q: Pos) { p.lap < q.lap || (p.lap == q.lap && p.idx < q.idx) }

  predicate UpTo(p: Pos, q: Pos) { p == q || Before(p, q) }

  function Succ(p: Pos, n: nat): Pos { if p.idx + 1 >= n then Pos(p.lap + 1, 0) else Pos(p.lap, p.idx + 1) }

  /** Mounted, in recovery, or in recovery with the next generation already persistent. */
  datatype Mode = Live | Walking | Bumped

  /** The ring in cache and in persistent memory. `dhead` is the persistent head,
      `cl` how far the cleaner has come, `tail` and `dtail` the two tails. */
  datatype Ring = Ring(cur: seq<nat>, dur: seq<nat>, dhead: Pos, cl: Pos, tail: Pos, dtail: Pos, mode: Mode)

  /** The position that slot `i` serves next, at or after `head`. */
  function Due(head: Pos, i: nat): (lap: nat) { if i >= head.idx then head.lap else head.lap + 1 }

  function PosOf(head: Pos, i: nat): Pos { Pos(Due(head, i), i) }

  ghost predicate Shape(r: Ring) {
    && |r.cur| == |r.dur| > 0
    && r.dhead.lap >= 1
    && r.dhead.idx < |r.cur| && r.cl.idx < |r.cur| && r.tail.idx < |r.cur| && r.dtail.idx < |r.cur|
    && UpTo(r.dhead, r.cl) && UpTo(r.cl, r.tail) && UpTo(r.dhead, r.dtail) && UpTo(r.dtail, r.tail)
    && WithinLap(r.dhead, r.tail)
  }

  /** Fewer slots between head and tail than the ring has. */
  predicate WithinLap(head: Pos, tail: Pos) {
    tail.lap == head.lap || (tail.lap == head.lap + 1 && tail.idx < head.idx)
  }

  /** A remembered lap that the 16-bit test cannot mistake for the one due. */
  predicate Fresh(lap: nat, due: nat) {
    lap == 0 || (lap <= due && Cycle(lap) == Cycle(due))
  }

  ghost predicate Inv(r: Ring) {
    Shape(r)
    && (forall i | 0 <= i < |r.cur| :: Fresh(r.cur[i], Due(r.dhead, i)) && Fresh(r.dur[i], Due(r.dhead, i)))
    && match r.mode
       case Live => forall i | 0 <= i < |r.cur| :: LiveSlot(r, i)
       case Walking => forall i | 0 <= i < |r.cur| :: r.cur[i] == 0 || r.cur[i] == r.dur[i]
       case Bumped => forall i | 0 <= i < |r.cur| :: BumpedSlot(r, i)
  }

  ghost predicate LiveSlot(r: Ring, i: nat)
    requires Shape(r) && i < |r.cur|
  {
    var p := PosOf(r.dhead, i);
    && (r.cur[i] == p.lap ==> Before(p, r.tail))
    && (r.dur[i] == p.lap ==> Before(p, r.tail))
    && (GenOf(p.lap) == MAX_GEN_ID && Before(p, r.cl) ==> r.cur[i] == 0)
  }

  /** The next generation leaves every slot of the ring behind. */
  ghost predicate BumpedSlot(r: Ring, i: nat)
    requires Shape(r) && i < |r.cur|
  {
    && (r.cur[i] == 0 || r.cur[i] == r.dur[i])
    && r.dur[i] < Due(r.dhead, i)
    && (r.dhead.lap < r.dtail.lap && GenOf(r.dhead.lap) == MAX_GEN_ID ==> r.dur[i] == 0)
  }

  // ------------------------------------------------------------------- steps

  datatype Step =
    | Reserve(tail: Pos)
    | Store(i: nat)
    | Persist(i: nat)
    | PersistTail
    | CleanSlot
    | CleanHead
    | Crash
    | RecWipe(i: nat)
    | PersistGen
    | PersistHead

  /** No slot at or past the persistent tail is persistent in the lap it is due. */
  ghost predicate NoStray(r: Ring)
    requires Shape(r)
  {
    forall i | 0 <= i < |r.dur| :: r.dur[i] == Due(r.dhead, i) ==> Before(PosOf(r.dhead, i), r.dtail)
  }

  /** pmfs_recover_undo_journal wipes the slots of the window that are in the last
      generation; pmfs_forward_journal wipes the rest of the ring if the tail is. */
  predicate ToWipe(r: Ring, i: nat) {
    (GenOf(Due(r.dhead, i)) == MAX_GEN_ID && Before(PosOf(r.dhead, i), r.dtail))
    || (GenOf(r.dtail.lap) == MAX_GEN_ID && i >= r.dtail.idx)
  }

  ghost predicate Enabled(r: Ring, st: Step) {
    Shape(r) &&
    match st
    case Reserve(tail) =>
      // the space check, on the current head, with the cleaner finished
      r.mode.Live? && r.cl == r.dhead && Before(r.tail, tail) && tail.idx < |r.cur| && WithinLap(r.dhead, tail)
    case Store(i) =>
      r.mode.Live? && i < |r.cur| && UpTo(r.cl, PosOf(r.dhead, i)) && Before(PosOf(r.dhead, i), r.tail)
    case Persist(i) => i < |r.cur|
    case PersistTail => r.mode.Live?
    case CleanSlot => r.mode.Live? && Before(r.cl, r.tail)
    case CleanHead =>
      // the fence before the head is stored: what the scan wiped is persistent
      r.mode.Live? && UpTo(r.cl, r.dtail) && forall i | 0 <= i < |r.dur| ::
        Before(PosOf(r.dhead, i), r.cl) && GenOf(Due(r.dhead, i)) == MAX_GEN_ID ==> r.dur[i] == 0
    case Crash => r.dhead == r.dtail ==> NoStray(r)
    case RecWipe(i) => r.mode.Walking? && i < |r.cur| && ToWipe(r, i)
    case PersistGen =>
      // the fence before the generation is stored: what recovery wiped is persistent
      r.mode.Walking? && forall i | 0 <= i < |r.cur| && ToWipe(r, i) :: r.cur[i] == r.dur[i] == 0
    case PersistHead => r.mode.Bumped?
  }

  function Later(p: Pos): Pos { Pos(p.lap + 1, p.idx) }

  /** The generation is stored before the head; a power failure in between leaves the window
      as it was, one generation on. */
  ghost function Next(r: Ring, st: Step): Ring
    requires Enabled(r, st)
  {
    match st
    case Reserve(tail) => r.(tail := tail)
    case Store(i) => r.(cur := r.cur[i := Due(r.dhead, i)])
    case Persist(i) => r.(dur := r.dur[i := r.cur[i]])
    case PersistTail => r.(dtail := r.tail)
    case CleanSlot =>
      r.(cl := Succ(r.cl, |r.cur|),
         cur := if GenOf(r.cl.lap) == MAX_GEN_ID then r.cur[r.cl.idx := 0] else r.cur)
    case CleanHead => r.(dhead := r.cl)
    case Crash => Ring(r.dur, r.dur, r.dhead, r.dhead, r.dtail, r.dtail, if r.dhead == r.dtail then Live else Walking)
    case RecWipe(i) => r.(cur := r.cur[i := 0])
    case PersistGen => Ring(r.cur, r.dur, Later(r.dhead), Later(r.dhead), Later(r.dtail), Later(r.dtail), Bumped)
    case PersistHead => Ring(r.cur, r.dur, r.dtail, r.dtail, r.dtail, r.dtail, Live)
  }

  /** Unless the last lap begins, nothing; else no slot before `at` is in use. */
  ghost predicate UnusedBefore(r: Ring, lap: nat, at: nat) {
    GenOf(lap) == MAX_GEN_ID ==> forall i | 0 <= i < at && i < |r.dur| :: r.dur[i] == 0
  }

  /** What the two steps of pmfs_forward_journal need for the ids to stay unambiguous: a slot
      that recovery skips in the last lap will not be wiped in it. */
  ghost predicate SkipsNothing(r: Ring, st: Step) {
    && (st.PersistGen? ==> UnusedBefore(r, r.dhead.lap + 1, r.dhead.idx))
    && (st.PersistHead? ==> UnusedBefore(r, r.dtail.lap, r.dtail.idx))
  }

  // ---------------------------------------------------------- preservation

  lemma StepStore(r: Ring, i: nat)
    requires Inv(r) && Enabled(r, Store(i))
    ensures Inv(Next(r, Store(i)))
  {
    hide GenOf, Cycle;
    forall j | 0 <= j < |r.cur| ensures LiveSlot(Next(r, Store(i)), j) { assert LiveSlot(r, j); }
  }

  lemma StepPersist(r: Ring, i: nat)
    requires Inv(r) && Enabled(r, Persist(i))
    ensures Inv(Next(r, Persist(i)))
  {
    hide GenOf, Cycle;
    var r' := Next(r, Persist(i));
    assert forall j | 0 <= j < |r.cur| :: r.mode.Live? && LiveSlot(r, j) ==> LiveSlot(r', j);
    assert forall j | 0 <= j < |r.cur| :: r.mode.Bumped? && BumpedSlot(r, j) ==> BumpedSlot(r', j);
  }

  lemma StepCleanSlot(r: Ring)
    requires Inv(r) && Enabled(r, CleanSlot)
    ensures Inv(Next(r, CleanSlot))
  {
    var r' := Next(r, CleanSlot);
    forall i | 0 <= i < |r.cur| ensures LiveSlot(r', i) {
      assert LiveSlot(r, i);
      assert Before(PosOf(r.dhead, i), r'.cl) ==> PosOf(r.dhead, i) == r.cl || Before(PosOf(r.dhead, i), r.cl);
    }
  }

  lemma CleanedSlot(r: Ring, i: nat)
    requires Inv(r) && Enabled(r, CleanHead) && i < |r.cur|
    ensures Fresh(r.cur[i], Due(r.cl, i)) && Fresh(r.dur[i], Due(r.cl, i))
    ensures r.cur[i] == Due(r.cl, i) || r.dur[i] == Due(r.cl, i) ==> Due(r.cl, i) == Due(r.dhead, i)
  {
    var was := Due(r.dhead, i);
    assert LiveSlot(r, i);
    GenSteps(was);
    assert Due(r.cl, i) == was || (Due(r.cl, i) == was + 1 && Before(PosOf(r.dhead, i), r.cl));
  }

  lemma StepCleanHead(r: Ring)
    requires Inv(r) && Enabled(r, CleanHead)
    ensures Inv(Next(r, CleanHead))
  {
    forall i | 0 <= i < |r.cur|
      ensures Fresh(r.cur[i], Due(r.cl, i)) && Fresh(r.dur[i], Due(r.cl, i))
      ensures LiveSlot(Next(r, CleanHead), i)
    {
      CleanedSlot(r, i);
      assert LiveSlot(r, i);
    }
  }

  /** A journal whose persistent head and tail agree is mounted as it is, in the same
      generation: that is sound exactly when no stray slot survived past the tail. */
  lemma CrashEmptyIff(r: Ring)
    requires Inv(r) && r.dhead == r.dtail
    ensures Inv(Ring(r.dur, r.dur, r.dhead, r.dhead, r.dhead, r.dhead, Live)) <==> NoStray(r)
  {
    var r' := Ring(r.dur, r.dur, r.dhead, r.dhead, r.dhead, r.dhead, Live);
    assert Shape(r');
    forall i | 0 <= i < |r.dur| ensures !Before(PosOf(r.dhead, i), r.dhead) {}
    forall i | 0 <= i < |r.dur|
      ensures LiveSlot(r', i) <==> (r.dur[i] == Due(r.dhead, i) ==> Before(PosOf(r.dhead, i), r.dtail))
    {
    }
  }

  /** One lap on, a slot is still told apart unless its lap was the last of the cycle. */
  lemma FreshNext(lap: nat, due: nat)
    requires Fresh(lap, due) && due >= 1
    ensures Fresh(lap, due + 1) <==> lap == 0 || GenOf(due) != MAX_GEN_ID
  {
    GenSteps(due);
  }

  /** Storing the next generation keeps the ids unambiguous exactly if no used slot lies
      before the head when the last lap begins. */
  lemma PersistGenIff(r: Ring)
    requires Inv(r) && Enabled(r, PersistGen)
    ensures Inv(Next(r, PersistGen)) <==> UnusedBefore(r, r.dhead.lap + 1, r.dhead.idx)
  {
    hide GenOf, Cycle;
    var r' := Next(r, PersistGen);
    forall i | 0 <= i < |r.cur|
      ensures Due(r'.dhead, i) == Due(r.dhead, i) + 1
      ensures Fresh(r.cur[i], Due(r'.dhead, i)) <==> r.cur[i] == 0 || GenOf(Due(r.dhead, i)) != MAX_GEN_ID
      ensures Fresh(r.dur[i], Due(r'.dhead, i)) <==> r.dur[i] == 0 || GenOf(Due(r.dhead, i)) != MAX_GEN_ID
    {
      FreshNext(r.cur[i], Due(r.dhead, i));
      FreshNext(r.dur[i], Due(r.dhead, i));
    }
    forall i | 0 <= i < |r.cur| ensures BumpedSlot(r', i) { BumpedWiped(r, i); }
    forall i | 0 <= i < |r.cur| && GenOf(Due(r.dhead, i)) == MAX_GEN_ID
        && !(i < r.dhead.idx && r.dhead.lap + 1 == Due(r.dhead, i))
      ensures r.dur[i] == 0
    {
      assert ToWipe(r, i);
    }
  }

  lemma BumpedWiped(r: Ring, i: nat)
    requires Inv(r) && Enabled(r, PersistGen) && i < |r.cur|
    ensures BumpedSlot(Next(r, PersistGen), i)
  {
    GenSteps(r.dhead.lap);
    assert r.dur[i] <= Due(r.dhead, i);
    if r.dhead.lap < r.dtail.lap && GenOf(r.dtail.lap) == MAX_GEN_ID { assert ToWipe(r, i); }
  }

  /** Storing the head keeps them so exactly if no used slot lies before the tail when the
      last lap begins. */
  lemma PersistHeadIff(r: Ring)
    requires Inv(r) && Enabled(r, PersistHead)
    ensures Inv(Next(r, PersistHead)) <==> UnusedBefore(r, r.dtail.lap, r.dtail.idx)
  {
    hide GenOf, Cycle;
    var r' := Next(r, PersistHead);
    forall i | 0 <= i < |r.cur|
      ensures Fresh(r.cur[i], Due(r'.dhead, i)) <==>
                !(GenOf(r.dtail.lap) == MAX_GEN_ID && i < r.dtail.idx && r.cur[i] != 0)
      ensures Fresh(r.dur[i], Due(r'.dhead, i)) <==>
                !(GenOf(r.dtail.lap) == MAX_GEN_ID && i < r.dtail.idx && r.dur[i] != 0)
      ensures LiveSlot(r', i)
    {
      HeadSlot(r, i, r.cur[i]);
      HeadSlot(r, i, r.dur[i]);
    }
    assert forall i | 0 <= i < |r.cur| :: BumpedSlot(r, i) ==> r.cur[i] == 0 || r.cur[i] == r.dur[i];
  }

  lemma HeadSlot(r: Ring, i: nat, lap: nat)
    requires Inv(r) && Enabled(r, PersistHead) && i < |r.cur| && (lap == r.cur[i] || lap == r.dur[i])
    ensures lap < Due(r.dtail, i)
    ensures Fresh(lap, Due(r.dtail, i)) <==> !(GenOf(r.dtail.lap) == MAX_GEN_ID && i < r.dtail.idx && lap != 0)
  {
    var was := Due(r.dhead, i);
    FreshNext(lap, was);
    GenSteps(was);
    assert BumpedSlot(r, i);
    assert Due(r.dtail, i) == if Before(PosOf(r.dhead, i), r.dtail) then was + 1 else was;
    assert lap == 0 || (lap < was && Cycle(lap) == Cycle(was));
    if lap != 0 { LastLap(lap, was); }
  }

  /** Nothing comes before the first lap of a cycle. */
  lemma LastLap(lap: nat, due: nat)
    requires 1 <= lap < due && Cycle(lap) == Cycle(due)
    ensures GenOf(due) > 1
  {
  }

  /** Both stores together, without a power failure in between. */
  lemma CrashRecoverIff(r: Ring)
    requires Inv(r) && Enabled(r, PersistGen)
    ensures Inv(Next(Next(r, PersistGen), PersistHead)) <==> UnusedBefore(r, r.dtail.lap + 1, r.dtail.idx)
  {
    hide GenOf, Cycle;
    var q := Next(r, PersistGen);
    PersistGenIff(r);
    if Inv(q) {
      PersistHeadIff(q);
    } else {
      var i :| 0 <= i < r.dhead.idx && i < |r.dur| && r.dur[i] != 0;
      assert !ToWipe(r, i);
      FreshNext(r.dur[i], Due(r.dhead, i));
      assert Due(q.dtail, i) == Due(r.dhead, i) + 1;
    }
  }

  lemma StepKeepsInv(r: Ring, st: Step)
    requires Inv(r) && Enabled(r, st) && SkipsNothing(r, st)
    ensures Inv(Next(r, st))
  {
    hide GenOf, Cycle;
    match st
    case Reserve(tail) => assert forall i | 0 <= i < |r.cur| :: LiveSlot(r, i) ==> LiveSlot(Next(r, st), i);
    case Store(i) => StepStore(r, i);
    case Persist(i) => StepPersist(r, i);
    case PersistTail => assert forall i | 0 <= i < |r.cur| :: LiveSlot(r, i) ==> LiveSlot(Next(r, st), i);
    case CleanSlot => StepCleanSlot(r);
    case CleanHead => StepCleanHead(r);
    case Crash => if r.dhead == r.dtail { CrashEmptyIff(r); }
    case RecWipe(i) =>
    case PersistGen => PersistGenIff(r);
    case PersistHead => PersistHeadIff(r);
  }

  // ----------------------------------------------------------- main results

  ghost predicate Init(r: Ring) {
    |r.cur| > 0 && r.cur == r.dur == seq(|r.cur|, _ => 0)
    && r.dhead == r.cl == r.tail == r.dtail == Pos(1, 0) && r.mode.Live?
  }

  ghost predicate IsRun(run: seq<Ring>, steps: seq<Step>) {
    |run| == |steps| + 1 && Init(run[0])
    && forall i | 0 <= i < |steps| ::
         Enabled(run[i], steps[i]) && run[i + 1] == Next(run[i], steps[i]) && SkipsNothing(run[i], steps[i])
  }

  lemma InitInv(r: Ring)
    requires Init(r)
    ensures Inv(r)
  {
    assert forall i | 0 <= i < |r.cur| :: LiveSlot(r, i);
  }

  lemma {:induction false} RunKeepsInv(run: seq<Ring>, steps: seq<Step>, k: nat)
    requires IsRun(run, steps) && k < |run|
    ensures Inv(run[k])
  {
    hide Inv, Enabled, Next, SkipsNothing, Init;
    if k == 0 {
      InitInv(run[0]);
    } else {
      RunKeepsInv(run, steps, k - 1);
      StepKeepsInv(run[k - 1], steps[k - 1]);
    }
  }

  /** In every run, over any number of wrap-arounds of the 16-bit counter and with power
      failures inside recovery, a slot of either image whose id is the one expected at its
      position was stored in that very lap. Slots past the tail never pass the test once
      mounted, and none passes it between the two stores that end recovery. */
  lemma GenerationTestExact(run: seq<Ring>, steps: seq<Step>, k: nat, i: nat)
    requires IsRun(run, steps) && k < |run| && i < |run[k].cur| == |run[k].dur|
    ensures var r := run[k];
            var p := PosOf(r.dhead, i);
            && (GenOf(r.cur[i]) == GenOf(p.lap) <==> r.cur[i] == p.lap)
            && (GenOf(r.dur[i]) == GenOf(p.lap) <==> r.dur[i] == p.lap)
            && (GenOf(r.cur[i]) == GenOf(p.lap) || GenOf(r.dur[i]) == GenOf(p.lap) ==>
                  !r.mode.Bumped? && (r.mode.Live? ==> Before(p, r.tail)))
  {
    RunKeepsInv(run, steps, k);
    var r := run[k];
    var p := PosOf(r.dhead, i);
    if r.cur[i] != 0 && GenOf(r.cur[i]) == GenOf(p.lap) { GenDecides(r.cur[i], p.lap); }
    if r.dur[i] != 0 && GenOf(r.dur[i]) == GenOf(p.lap) { GenDecides(r.dur[i], p.lap); }
    assert r.mode.Live? ==> LiveSlot(r, i);
    assert r.mode.Bumped? ==> BumpedSlot(r, i);
  }

  // --------------------------------------------- runs that the conditions exclude

  ghost predicate Reachable(r: Ring) {
    exists run: seq<Ring>, steps: seq<Step> :: IsRun(run, steps) && run[|steps|] == r
  }

  lemma ReachInit(r: Ring)
    requires Init(r)
    ensures Reachable(r)
  {
    assert IsRun([r], []);
  }

  lemma ReachStep(r: Ring, st: Step)
    requires Reachable(r) && Enabled(r, st) && SkipsNothing(r, st)
    ensures Reachable(Next(r, st))
  {
    var run, steps :| IsRun(run, steps) && run[|steps|] == r;
    assert IsRun(run + [Next(r, st)], steps + [st]);
  }

  /** One record is persistent, the tail behind it is not. */
  function Strayed(): Ring { Ring([1, 0], [1, 0], Pos(1, 0), Pos(1, 0), Pos(1, 1), Pos(1, 0), Live) }

  lemma ReachStrayed()
    ensures Reachable(Strayed())
  {
    var r0 := Ring([0, 0], [0, 0], Pos(1, 0), Pos(1, 0), Pos(1, 0), Pos(1, 0), Live);
    ReachInit(r0);
    ReachStep(r0, Reserve(Pos(1, 1)));
    var r1 := Next(r0, Reserve(Pos(1, 1)));
    ReachStep(r1, Store(0));
    var r2 := Next(r1, Store(0));
    ReachStep(r2, Persist(0));
    assert Next(r2, Persist(0)) == Strayed();
  }

  /** A run to a power failure that leaves head and tail equal and a record past them. The
      journal is mounted as empty, and the record passes for one of the current lap. */
  lemma StrayPassesTest()
    ensures Reachable(Strayed()) && Strayed().dhead == Strayed().dtail && !NoStray(Strayed())
    ensures var r := Strayed();
            GenOf(r.dur[0]) == GenOf(Due(r.dhead, 0)) && !Before(PosOf(r.dhead, 0), r.dtail)
  {
    ReachStrayed();
    assert Strayed().dur[0] == Due(Strayed().dhead, 0);
  }

  /** In recovery in lap `lap`, with the record of lap 1 in slot 0. */
  function Again(lap: nat): Ring { Ring([1, 0], [1, 0], Pos(lap, 0), Pos(lap, 0), Pos(lap, 1), Pos(lap, 1), Walking) }

  /** Each power failure between the two stores uses up a generation. */
  lemma {:induction false} ReachAgain(lap: nat)
    requires 1 <= lap < MAX_GEN_ID
    ensures Reachable(Again(lap))
  {
    if lap == 1 {
      ReachStrayed();
      ReachStep(Strayed(), PersistTail);
      ReachStep(Next(Strayed(), PersistTail), Crash);
    } else {
      ReachAgain(lap - 1);
      var r := Again(lap - 1);
      ReachStep(r, PersistGen);
      ReachStep(Next(r, PersistGen), Crash);
      assert Next(Next(r, PersistGen), Crash) == Again(lap);
    }
  }

  /** A run to a recovery that stores the head in mid-ring as the last lap begins. Slot 0 is
      skipped for good, and its record of lap 1 passes for one of the lap to come. */
  lemma SkippedSlotPassesTest()
    ensures var r := Again(MAX_GEN_ID).(mode := Bumped);
            && Reachable(r) && Enabled(r, PersistHead) && !SkipsNothing(r, PersistHead)
            && var r' := Next(r, PersistHead);
               GenOf(r'.cur[0]) == GenOf(Due(r'.dhead, 0)) && r'.cur[0] != Due(r'.dhead, 0)
  {
    ReachAgain(MAX_GEN_ID - 1);
    var q := Again(MAX_GEN_ID - 1);
    ReachStep(q, PersistGen);
    var r := Next(q, PersistGen);
    assert r == Again(MAX_GEN_ID).(mode := Bumped);
    assert r.dur[0] == 1;
  }
}
