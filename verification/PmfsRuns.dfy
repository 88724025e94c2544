/** Runs of the PMFS journal, from an empty one, to the states that the conditions of
    PmfsCrash, PmfsCleaner and PmfsJournal shut out. */
module PmfsRuns {
  import opened PmfsUndoWalk
  import opened PmfsCrash
  import opened PmfsCrashSteps
  import opened PmfsCleaner
  import J = PmfsJournal

  ghost predicate Reachable(s: State) {
    exists run: seq<State>, steps: seq<Step> :: IsRun(run, steps) && run[|steps|] == s
  }

  lemma ReachInit(s: State)
    requires Init(s)
    ensures Reachable(s)
  {
    assert IsRun([s], []);
  }

  lemma ReachStep(s: State, st: Step)
    requires Reachable(s) && Enabled(s, st)
    ensures Reachable(Next(s, st))
  {
    hide Enabled, Next, Init;
    var run, steps :| IsRun(run, steps) && run[|steps|] == s;
    assert IsRun(run + [Next(s, st)], steps + [st]);
  }

  /** An empty journal and one byte of data. */
  ghost function Fresh(): State { State(Img([7], [], 0, 0), Img([7], [], 0, 0), [7], Mounted([], 0)) }

  function Free(n: nat): (log: seq<Cell>)
    ensures |log| == n && forall p | 0 <= p < n :: log[p] == Blank(false)
  {
    seq(n, _ => Blank(false))
  }

  /** A reservation of three slots within a lap, nothing stored in them. */
  ghost function Reserved(): State {
    State(Img([7], Free(3), 0, 3), Img([7], Free(3), 0, 0), [7], Mounted([Tx(0, 3, [], 0, Running)], 0))
  }

  lemma ReachReserved()
    ensures Reachable(Reserved())
  {
    ReachInit(Fresh());
    ReachStep(Fresh(), Reserve([], false, 3));
    var s := Next(Fresh(), Reserve([], false, 3));
    assert s.cur.log == Free(3) && s.dur.log == Free(3);
    assert s.mode.txs == Reserved().mode.txs;
    assert s == Reserved();
  }

  /** The cleaner passes a transaction that has reserved its slots and stored nothing. */
  lemma CleanerPassesOpen()
    ensures Reachable(Reserved()) && !FirstOpenStarted(Reserved().mode.txs)
    ensures !KeepsOpen(Reserved().mode.txs, CleanTo(Reserved().cur.log, 0, 3))
  {
    ReachReserved();
    var s := Reserved();
    assert FirstOpen(s.mode.txs, 0) && s.mode.txs[0].ents == [];
    assert CleanTo(s.cur.log, 1, 3) == 3;
    assert Unsealed(s.mode.txs[0]);
  }

  ghost function Record(): Cell { Cell(false, true, true, false, 0, [7]) }

  /** Its first record stored. */
  ghost function Started(): State {
    Reserved().(cur := Reserved().cur.(log := Free(3)[0 := Record()]),
        mode := Mounted([Tx(0, 3, [Record()], 0, Running)], 0))
  }

  lemma ReachStarted()
    ensures Reachable(Started())
  {
    ReachReserved();
    ReachStep(Reserved(), LogData(0, 0, 1));
    assert [7][0..1] == [7];
    var s := Next(Reserved(), LogData(0, 0, 1));
    assert s.cur.log == Started().cur.log;
    assert s.mode.txs[0].ents == [] + [Record()] == [Record()];
    assert s.mode.txs[0] == Started().mode.txs[0];
    assert s.mode.txs == Started().mode.txs;
    assert s == Started();
  }

  /** The record becomes persistent before the tail does: a power failure now leaves a journal
      that looks empty, with a live record past the tail. */
  lemma StrayReached()
    ensures exists s: State :: Reachable(s) && s.dur.head == s.dur.tail && !NoStray(s.dur)
  {
    ReachStarted();
    ReachStep(Started(), PersistSlot(0));
    var s := Next(Started(), PersistSlot(0));
    assert s.dur.log[0].live;
  }

  /** A second reservation begins the next lap, past a slot left over at the end of the ring. The
      journal is then the window of a ring of six slots from slot 2 to slot 1, and the cleaner's
      scan for the first transaction would go past its end. */
  lemma ScanLeavesReached()
    ensures exists s: State :: Reachable(s) && s.cur.head == 0 && s.cur.tail == |s.cur.log|
              && s.cur.log == J.View(J.LapEnd(), 2, 1, 2) && !J.StaysInLap(s.cur.log, 0)
  {
    hide Reachable;
    ReachStarted();
    ReachStep(Started(), Reserve([false], true, 1));
    var s := Next(Started(), Reserve([false], true, 1));
    assert s.cur.log == [Record(), Blank(false), Blank(false), Blank(false), Blank(true)];
    LapEndWin();
    J.ScanLeavesRing();
  }

  lemma LapEndWin()
    ensures J.View(J.LapEnd(), 2, 1, 2) == [Record(), Blank(false), Blank(false), Blank(false), Blank(true)]
  {
    var v := J.View(J.LapEnd(), 2, 1, 2);
    assert forall x | 0 <= x < 5 :: v[x] == J.CellAt(J.LapEnd(), 2, 1, 2, x);
  }
}
