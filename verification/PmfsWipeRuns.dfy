/** Runs of the PMFS journal to recoveries in which wiped slots that become persistent do harm:
    the cases of PmfsWipe that the guard of the step system shuts out. */
module PmfsWipeRuns {
  import opened PmfsUndoWalk
  import opened PmfsRecovery
  import opened PmfsCrash
  import opened PmfsRuns
  import W = PmfsWipe

  // Two transactions over two bytes. The first has slots 0 and 1 and saves byte 0; the second
  // has slots 2 to 4 and saves byte 1, as 8 and, after a store, as 5.

  function R0(): Cell { Cell(false, true, true, false, 0, [7]) }
  function R1(): Cell { Cell(false, true, true, false, 1, [8]) }
  function R2(): Cell { Cell(false, true, false, false, 1, [5]) }
  function Commit(): Cell { Cell(false, true, false, true, 0, []) }
  function No(): Cell { Blank(false) }

  ghost function At(cur: seq<Byte>, clog: seq<Cell>, dur: seq<Byte>, dlog: seq<Cell>, tail: nat, txs: seq<Tx>): State {
    State(Img(cur, clog, 0, 5), Img(dur, dlog, 0, tail), [7, 8], Mounted(txs, 0))
  }

  function Empty(): seq<Cell> { [No(), No(), No(), No(), No()] }
  function Begun(): seq<Cell> { [R0(), No(), R1(), No(), No()] }
  function Logged(): seq<Cell> { [R0(), No(), R1(), R2(), No()] }
  function Closed(): seq<Cell> { [R0(), No(), R1(), R2(), Commit()] }

  function First(fenced: nat): Tx { Tx(0, 2, [R0()], fenced, Running) }
  function Second(ents: seq<Cell>, fenced: nat, phase: Phase): Tx { Tx(2, 3, ents, fenced, phase) }

  lemma ReachReservations()
    ensures Reachable(At([7, 8], Empty(), [7, 8], Empty(), 0, [Tx(0, 2, [], 0, Running), Second([], 0, Running)]))
  {
    hide Reachable;
    var s0 := State(Img([7, 8], [], 0, 0), Img([7, 8], [], 0, 0), [7, 8], Mounted([], 0));
    ReachInit(s0);
    ReachStep(s0, Reserve([], false, 2));
    var s1 := Next(s0, Reserve([], false, 2));
    assert s1.cur.log == [No(), No()] && s1.dur.log == [No(), No()];
    assert s1.mode.txs == [Tx(0, 2, [], 0, Running)];
    ReachStep(s1, Reserve([], false, 3));
    var s2 := Next(s1, Reserve([], false, 3));
    assert s2.cur.log == Empty() && s2.dur.log == Empty();
    assert s2.mode.txs == [Tx(0, 2, [], 0, Running), Second([], 0, Running)];
  }

  lemma ReachBegun()
    ensures Reachable(At([7, 8], Begun(), [7, 8], Empty(), 0, [First(0), Second([R1()], 0, Running)]))
  {
    hide Reachable;
    ReachReservations();
    var s0 := At([7, 8], Empty(), [7, 8], Empty(), 0, [Tx(0, 2, [], 0, Running), Second([], 0, Running)]);
    ReachStep(s0, LogData(0, 0, 1));
    var s1 := Next(s0, LogData(0, 0, 1));
    assert [7, 8][0..1] == [7] && [7, 8][1..2] == [8];
    assert s1.cur.log == Empty()[0 := R0()];
    assert s1.mode.txs[0].ents == [] + [R0()] == [R0()];
    assert s1.mode.txs == [First(0), Second([], 0, Running)];
    ReachStep(s1, LogData(1, 1, 1));
    var s2 := Next(s1, LogData(1, 1, 1));
    assert s2.cur.log == Begun();
    assert s2.mode.txs[1].ents == [] + [R1()] == [R1()];
    assert s2.mode.txs == [First(0), Second([R1()], 0, Running)];
  }

  lemma ReachFenced()
    ensures Reachable(At([7, 8], Begun(), [7, 8], Begun(), 5, [First(1), Second([R1()], 1, Running)]))
  {
    hide Reachable;
    ReachBegun();
    var s0 := At([7, 8], Begun(), [7, 8], Empty(), 0, [First(0), Second([R1()], 0, Running)]);
    ReachStep(s0, PersistSlot(0));
    var s1 := Next(s0, PersistSlot(0));
    ReachStep(s1, PersistSlot(2));
    var s2 := Next(s1, PersistSlot(2));
    assert s2.dur.log == Begun();
    ReachStep(s2, PersistHeader);
    var s3 := Next(s2, PersistHeader);
    ReachStep(s3, FenceLog(0));
    var s4 := Next(s3, FenceLog(0));
    assert s4.mode.txs == [First(1), Second([R1()], 0, Running)];
    ReachStep(s4, FenceLog(1));
    assert Next(s4, FenceLog(1)).mode.txs == [First(1), Second([R1()], 1, Running)];
  }

  lemma ReachLogged()
    ensures Reachable(At([7, 5], Logged(), [7, 8], Logged(), 5, [First(1), Second([R1(), R2()], 2, Running)]))
  {
    hide Reachable;
    ReachFenced();
    var s0 := At([7, 8], Begun(), [7, 8], Begun(), 5, [First(1), Second([R1()], 1, Running)]);
    assert Covers(s0.mode.txs[1].ents[0], 1);
    ReachStep(s0, Write(1, 1, 5));
    var s1 := Next(s0, Write(1, 1, 5));
    assert s1.cur.data == [7, 5] && [7, 5][1..2] == [5];
    ReachStep(s1, LogData(1, 1, 1));
    var s2 := Next(s1, LogData(1, 1, 1));
    assert s2.cur.log == Logged();
    assert s2.mode.txs[1].ents == [R1()] + [R2()] == [R1(), R2()];
    assert s2.mode.txs == [First(1), Second([R1(), R2()], 1, Running)];
    ReachStep(s2, PersistSlot(3));
    var s3 := Next(s2, PersistSlot(3));
    assert s3.dur.log == Logged();
    ReachStep(s3, FenceLog(1));
    assert Next(s3, FenceLog(1)).mode.txs == [First(1), Second([R1(), R2()], 2, Running)];
  }

  // ------------------------------------------------------------ an undone group

  /** In recovery, come down to slot 2 with both records of the second transaction undone. */
  ghost function UndoneSecond(): State {
    State(Img([7, 8], Logged(), 0, 5), Img([7, 8], Logged(), 0, 5), [7, 8], Recovering(2))
  }

  lemma ReachUndoneSecond()
    ensures Reachable(UndoneSecond())
  {
    hide Reachable;
    ReachLogged();
    var s0 := At([7, 5], Logged(), [7, 8], Logged(), 5, [First(1), Second([R1(), R2()], 2, Running)]);
    ReachStep(s0, Crash);
    var s1 := UndoneSecond().(mode := Recovering(5));
    ReachStep(s1, RecSkip);
    var s2 := s1.(mode := Recovering(4));
    LoggedUndone();
    ReachStep(s2, RecUndo);
    var s3 := Next(s2, RecUndo);
    assert s3.cur.data == [7, 5];
    ReachStep(s3, RecUndo);
    assert Next(s3, RecUndo).cur.data == [7, 8];
  }

  lemma LoggedUndone()
    ensures Undone(Logged(), 0, 4, 3) && Undone(Logged(), 0, 3, 2)
  {
    assert Opens(Logged(), 2, 3) && Opens(Logged(), 2, 2);
  }

  /** With the start record of the second transaction wiped, its other record comes to belong to
      the first, and recovery puts 5 back. */
  lemma UndoneGroupHarms()
    ensures Reachable(UndoneSecond()) && W.Wiping(Logged(), 0, 2, 5, {2})
    ensures Fits(Logged(), 2) && W.Restarted(Logged(), 0, 5, {2}, [7, 8]) != UndoneSecond().spec
  {
    hide Reachable, W.Restarted, W.Without, Restores, Undone, W.Wiping, W.Harmless;
    ReachUndoneSecond();
    UndoneNotHarmless();
    W.WipeIff(Logged(), 0, 2, 5, {2}, [7, 8], [7, 8]);
  }

  lemma UndoneNotHarmless()
    ensures W.Wiping(Logged(), 0, 2, 5, {2}) && Fits(Logged(), 2) && Restores(Logged(), 0, 2, [7, 8], [7, 8])
    ensures !W.Harmless(Logged(), 0, 2, 5, {2}, [7, 8], [7, 8])
  {
    var log := Logged();
    FirstRestores(log, [7, 8], [7, 8]);
    hide Restores, Undone;
    assert Reaches(log, 0, 2);
    assert forall e :: !W.Closing(log, 2, 5, {2}, e);
    assert !W.RestSavesWanted(log, 0, 2, 5, {2}, [7, 8]) by {
      assert W.OldestLeft(log, 2, 5, {2}, 3, 1) && Untouched(log, 0, 2, 1);
    }
  }

  lemma FirstRestores(log: seq<Cell>, data: seq<Byte>, want: seq<Byte>)
    requires |log| == 5 && log[0] == R0() && log[1] == No() && |data| == |want| == 2 && want[0] == 7
    requires data[1] == want[1]
    ensures Restores(log, 0, 2, data, want) && Undone(log, 0, 2, 0)
    ensures forall a: nat :: Untouched(log, 0, 2, a) <==> a > 0
  {
    assert Opens(log, 0, 0);
    assert Undone(log, 0, 2, 0) && Covers(log[0], 0);
  }

  // ------------------------------------------------------------ a closed group

  /** Both transactions store, and the second is committed. */
  ghost function Committed(): State {
    At([9, 6], Closed(), [9, 6], Closed(), 5, [First(1), Second([R1(), R2(), Commit()], 3, Sealed)]).(spec := [7, 6])
  }

  lemma ReachStored()
    ensures Reachable(At([9, 6], Logged(), [9, 6], Logged(), 5, [First(1), Second([R1(), R2()], 2, Running)]))
  {
    hide Reachable;
    ReachLogged();
    var s0 := At([7, 5], Logged(), [7, 8], Logged(), 5, [First(1), Second([R1(), R2()], 2, Running)]);
    assert Covers(s0.mode.txs[0].ents[0], 0) && Covers(s0.mode.txs[1].ents[0], 1);
    ReachStep(s0, Write(0, 0, 9));
    var s1 := Next(s0, Write(0, 0, 9));
    ReachStep(s1, Write(1, 1, 6));
    var s2 := Next(s1, Write(1, 1, 6));
    assert s2.cur.data == [9, 6];
    ReachStep(s2, PersistByte(0));
    var s3 := Next(s2, PersistByte(0));
    ReachStep(s3, PersistByte(1));
    assert Next(s3, PersistByte(1)).dur.data == [9, 6];
  }

  lemma ReachCommitted()
    ensures Reachable(Committed())
  {
    hide Reachable;
    ReachStored();
    var s0 := At([9, 6], Logged(), [9, 6], Logged(), 5, [First(1), Second([R1(), R2()], 2, Running)]);
    ReachStep(s0, SealCommit(1));
    var s1 := Next(s0, SealCommit(1));
    assert s1.cur.log == Closed();
    assert s1.mode.txs[1].ents == [R1(), R2()] + [Commit()] == [R1(), R2(), Commit()];
    assert s1.mode.txs == [First(1), Second([R1(), R2(), Commit()], 2, Sealing(true))];
    ReachStep(s1, PersistSeal(1));
    var s2 := Next(s1, PersistSeal(1));
    assert s2.dur.log == Closed();
    assert s2.mode.txs == Committed().mode.txs;
    assert Covers(s1.mode.txs[1].ents[0], 1);
    assert s2.spec == [7, 6];
  }

  /** In recovery, come down to slot 2 past the committed transaction. */
  ghost function PassedSecond(): State {
    State(Img([9, 6], Closed(), 0, 5), Img([9, 6], Closed(), 0, 5), [7, 6], Recovering(2))
  }

  lemma ReachPassedSecond()
    ensures Reachable(PassedSecond())
  {
    hide Reachable;
    ReachCommitted();
    ReachStep(Committed(), Crash);
    var s := PassedSecond().(mode := Recovering(5));
    assert s == Next(Committed(), Crash);
    ReachStep(s, RecSkip);
    assert GroupLow(Closed(), 0, 3) == 2;
    assert Skip(Closed(), 0, 5) == 2;
  }

  /** With the start record wiped, the commit record comes to close the first transaction, and its
      store stays. With the commit record wiped too, but not the record between, that record comes
      to belong to the first transaction, and a committed store is rolled back. */
  lemma ClosedGroupHarms()
    ensures Reachable(PassedSecond()) && W.Wiping(Closed(), 0, 2, 5, {2}) && W.Wiping(Closed(), 0, 2, 5, {2, 4})
    ensures Fits(Closed(), 2) && W.Restarted(Closed(), 0, 5, {2}, [9, 6]) != PassedSecond().spec
    ensures W.Restarted(Closed(), 0, 5, {2, 4}, [9, 6]) != PassedSecond().spec
  {
    hide Reachable, W.Restarted, W.Without, Restores, Undone, W.Wiping, W.Harmless;
    ReachPassedSecond();
    CommitTaken();
    RecordTaken();
    W.WipeIff(Closed(), 0, 2, 5, {2}, [9, 6], [7, 6]);
    W.WipeIff(Closed(), 0, 2, 5, {2, 4}, [9, 6], [7, 6]);
  }

  lemma CommitTaken()
    ensures W.Wiping(Closed(), 0, 2, 5, {2}) && Fits(Closed(), 2) && Restores(Closed(), 0, 2, [9, 6], [7, 6])
    ensures !W.Harmless(Closed(), 0, 2, 5, {2}, [9, 6], [7, 6])
  {
    var log := Closed();
    FirstRestores(log, [9, 6], [7, 6]);
    hide Restores;
    assert Reaches(log, 0, 2);
    assert W.Closing(log, 2, 5, {2}, 4);
    forall s: nat | Reaches(log, s, 2) ensures !W.NothingToUndo(log, 0, 2, s, [9, 6], [7, 6]) {
      assert s == 0 && W.OnlyFrom(log, 0, 2, 0, 0);
    }
  }

  lemma RecordTaken()
    ensures W.Wiping(Closed(), 0, 2, 5, {2, 4}) && !W.Harmless(Closed(), 0, 2, 5, {2, 4}, [9, 6], [7, 6])
  {
    var log := Closed();
    FirstRestores(log, [9, 6], [7, 6]);
    hide Restores, Undone;
    assert Reaches(log, 0, 2);
    assert forall e :: !W.Closing(log, 2, 5, {2, 4}, e);
    assert !W.RestSavesWanted(log, 0, 2, 5, {2, 4}, [7, 6]) by {
      assert W.OldestLeft(log, 2, 5, {2, 4}, 3, 1) && Untouched(log, 0, 2, 1);
    }
  }
}
