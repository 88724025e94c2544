/** Crashes of the lite journal: stores become persistent one by one in any order, except
    where a flush with a fence waits for them, and a crash keeps what is persistent. */
module NovaLiteCrash {
  import opened NovaLiteJournal

  /** Memory, ring and the two pointers, as slots. */
  datatype Image = Image(mem: Mem, ring: Ring, head: nat, tail: nat)

  /** Filling, Fenced and Sealing carry the number of entries appended; Undoing the number
      undone. */
  datatype Phase =
    | Filling(n: nat) | Fenced(n: nat) | Sealing(n: nat)
    | Body | Committing | Undoing(i: nat) | Resetting

  /** `spec` is the memory as of the last transaction whose commit is persistent. */
  datatype State = State(cur: Image, dur: Image, spec: Mem, phase: Phase)

  const Idle := Filling(0)

  ghost predicate Ok(g: Image) { g.head < SLOTS && g.tail < SLOTS }

  function Win(g: Image): seq<Rec>
    requires g.head < SLOTS && g.tail < SLOTS
  {
    Window(g.ring, g.head, Len(g.head, g.tail))
  }

  datatype Step =
    | Append(a: nat) | Fence | StoreTail | PersistTail
    | Store(a: nat, v: nat) | StoreHead | PersistHead
    | PersistSlot(j: nat) | PersistWord(a: nat)
    | Crash
    | UndoOne | StoreReset | PersistReset

  ghost predicate Enabled(v: State, t: Step)
    requires Ok(v.cur) && Ok(v.dur)
  {
    match t
    case Append(a) => v.phase.Filling? && v.phase.n + 1 < SLOTS
    case Fence => v.phase.Filling?
        && forall i | 0 <= i < v.phase.n :: v.dur.ring[Slot(v.cur.head, i)] == v.cur.ring[Slot(v.cur.head, i)]
    case StoreTail => v.phase.Fenced?
    case PersistTail => v.phase.Sealing?
    case Store(a, x) => v.phase.Body? && Logged(Win(v.cur), a)
    case StoreHead => v.phase.Body? && Same(v.dur.mem, v.cur.mem)
    case PersistHead => v.phase.Committing?
    case PersistSlot(j) => j < SLOTS
    case PersistWord(a) => true
    case Crash => true
    case UndoOne => v.phase.Undoing? && v.phase.i < Len(v.cur.head, v.cur.tail)
    case StoreReset => v.phase.Undoing? && v.phase.i == Len(v.cur.head, v.cur.tail) && Same(v.dur.mem, v.cur.mem)
    case PersistReset => v.phase.Resetting?
  }

  function Put(r: Ring, j: nat, x: Rec): Ring
    requires j < SLOTS
  {
    r[j := x]
  }

  ghost function Next(v: State, t: Step): State
    requires Ok(v.cur) && Ok(v.dur) && Enabled(v, t)
  {
    match t
    case Append(a) =>
      var r := Put(v.cur.ring, Slot(v.cur.head, v.phase.n), Rec(a, Get(v.cur.mem, a)));
      v.(cur := v.cur.(ring := r), phase := Filling(v.phase.n + 1))
    case Fence => v.(phase := Fenced(v.phase.n))
    case StoreTail => v.(cur := v.cur.(tail := Slot(v.cur.head, v.phase.n)), phase := Sealing(v.phase.n))
    case PersistTail => v.(dur := v.dur.(tail := v.cur.tail), phase := Body)
    case Store(a, x) => v.(cur := v.cur.(mem := v.cur.mem[a := x]))
    case StoreHead => v.(cur := v.cur.(head := v.cur.tail), phase := Committing)
    case PersistHead => v.(dur := v.dur.(head := v.cur.head), spec := v.cur.mem, phase := Idle)
    case PersistSlot(j) => v.(dur := v.dur.(ring := Put(v.dur.ring, j, v.cur.ring[j])))
    case PersistWord(a) => v.(dur := v.dur.(mem := v.dur.mem[a := Get(v.cur.mem, a)]))
    case Crash => v.(cur := v.dur, phase := if v.dur.head == v.dur.tail then Idle else Undoing(0))
    case UndoOne =>
      var r := v.cur.ring[Slot(v.cur.head, v.phase.i)];
      v.(cur := v.cur.(mem := v.cur.mem[r.addr := r.old']), phase := Undoing(v.phase.i + 1))
    case StoreReset => v.(cur := v.cur.(tail := v.cur.head), phase := Resetting)
    case PersistReset => v.(dur := v.dur.(tail := v.cur.tail), phase := Idle)
  }

  // --------------------------------------------------------------- invariant

  /** What recovery from this image gives back. */
  function Recovered(g: Image): Mem
    requires g.head < SLOTS && g.tail < SLOTS
  {
    Undo(g.mem, Win(g))
  }

  ghost predicate Restores(g: Image, spec: Mem)
    requires Ok(g)
  {
    Captured(Win(g), spec) && OnlyLogged(Win(g), spec, g.mem)
  }

  ghost predicate Entries(ring: Ring, head: nat, n: nat, spec: Mem) { Captured(Window(ring, head, n), spec) }

  ghost predicate Agree(a: Ring, b: Ring, head: nat, n: nat) { Window(a, head, n) == Window(b, head, n) }

  ghost predicate PhaseOK(cur: Image, dur: Image, spec: Mem, phase: Phase)
    requires Ok(cur) && Ok(dur)
  {
    match phase
    case Filling(n) =>
      n < SLOTS && cur.head == cur.tail == dur.head == dur.tail && Same(cur.mem, spec)
          && Entries(cur.ring, cur.head, n, spec)
    case Fenced(n) =>
      && n < SLOTS && cur.head == cur.tail == dur.head == dur.tail && Same(cur.mem, spec)
      && Entries(cur.ring, cur.head, n, spec) && Agree(cur.ring, dur.ring, cur.head, n)
    case Sealing(n) =>
      && n < SLOTS && cur.head == dur.head == dur.tail && cur.tail == Slot(cur.head, n) && Same(cur.mem, spec)
      && Entries(cur.ring, cur.head, n, spec) && Agree(cur.ring, dur.ring, cur.head, n)
    case Body =>
      && cur.head == dur.head && cur.tail == dur.tail && Win(cur) == Win(dur) && OnlyLogged(Win(dur), spec, cur.mem)
    case Committing =>
      && cur.head == cur.tail == dur.tail && Same(cur.mem, dur.mem)
      && Agree(cur.ring, dur.ring, dur.head, Len(dur.head, dur.tail))
    case Undoing(i) =>
      && cur.head == dur.head && cur.tail == dur.tail && Win(cur) == Win(dur) && OnlyLogged(Win(dur), spec, cur.mem)
      && i <= |Win(dur)| && forall j | 0 <= j < i :: Get(cur.mem, Win(dur)[j].addr) == Get(spec, Win(dur)[j].addr)
    case Resetting =>
      && cur.head == cur.tail == dur.head && Same(cur.mem, spec) && Same(dur.mem, spec)
      && Agree(cur.ring, dur.ring, dur.head, Len(dur.head, dur.tail))
  }

  ghost predicate Inv(v: State) {
    && Ok(v.cur) && Ok(v.dur) && Restores(v.dur, v.spec)
    && PhaseOK(v.cur, v.dur, v.spec, v.phase)
  }

  lemma AppendKeeps(v: State, a: nat)
    requires Inv(v) && Enabled(v, Append(a))
    ensures Inv(Next(v, Append(a)))
  {
    var n, h := v.phase.n, v.cur.head;
    var w := Next(v, Append(a));
    forall i | 0 <= i < n + 1 ensures w.cur.ring[Slot(h, i)].old' == Get(v.spec, w.cur.ring[Slot(h, i)].addr) {
      if i < n {
        SlotsApart(h, i, n);
        assert Window(v.cur.ring, h, n)[i] == v.cur.ring[Slot(h, i)];
      }
    }
  }

  lemma FenceKeeps(v: State)
    requires Inv(v) && Enabled(v, Fence)
    ensures Inv(Next(v, Fence))
  {
    assert Agree(v.cur.ring, v.dur.ring, v.cur.head, v.phase.n);
  }

  lemma StoreTailKeeps(v: State)
    requires Inv(v) && Enabled(v, StoreTail)
    ensures Inv(Next(v, StoreTail))
  {
  }

  lemma PersistTailKeeps(v: State)
    requires Inv(v) && Enabled(v, PersistTail)
    ensures Inv(Next(v, PersistTail))
  {
    var h, n := v.cur.head, v.phase.n;
    var w := Next(v, PersistTail);
    assert Len(h, w.dur.tail) == n by { if n > 0 { SlotsApart(h, 0, n); } }
    assert Win(w.dur) == Window(v.cur.ring, h, n);
    assert Same(v.dur.mem, v.spec) by { NothingLogged(v.dur, v.spec); }
  }

  lemma NothingLogged(g: Image, spec: Mem)
    requires Ok(g) && Restores(g, spec) && g.head == g.tail
    ensures Same(g.mem, spec)
  {
    forall a ensures Get(g.mem, a) == Get(spec, a) { assert !Logged(Win(g), a); }
  }

  lemma StoreKeeps(v: State, a: nat, x: nat)
    requires Inv(v) && Enabled(v, Store(a, x))
    ensures Inv(Next(v, Store(a, x)))
  {
  }

  lemma StoreHeadKeeps(v: State)
    requires Inv(v) && Enabled(v, StoreHead)
    ensures Inv(Next(v, StoreHead))
  {
  }

  lemma PersistHeadKeeps(v: State)
    requires Inv(v) && Enabled(v, PersistHead)
    ensures Inv(Next(v, PersistHead))
  {
    var w := Next(v, PersistHead);
    assert Win(w.dur) == [];
    assert Window(w.cur.ring, w.cur.head, 0) == [];
  }

  lemma PutWindow(r: Ring, q: Ring, j: nat, head: nat, n: nat)
    requires j < SLOTS && Window(q, head, n) == Window(r, head, n)
    ensures Window(Put(r, j, q[j]), head, n) == Window(r, head, n)
  {
    var p := Put(r, j, q[j]);
    forall i | 0 <= i < n ensures p[Slot(head, i)] == r[Slot(head, i)] {
      assert Window(q, head, n)[i] == Window(r, head, n)[i];
    }
  }

  lemma PersistSlotKeeps(v: State, j: nat)
    requires Inv(v) && Enabled(v, PersistSlot(j))
    ensures Inv(Next(v, PersistSlot(j)))
  {
    var d := v.dur;
    var n := Len(d.head, d.tail);
    if v.phase.Body? || v.phase.Undoing? || v.phase.Committing? || v.phase.Resetting? {
      PutWindow(d.ring, v.cur.ring, j, d.head, n);
    } else {
      assert Win(Next(v, PersistSlot(j)).dur) == Win(d) == [];
      if !v.phase.Filling? { PutWindow(d.ring, v.cur.ring, j, v.cur.head, v.phase.n); }
    }
  }

  lemma PersistWordKeeps(v: State, a: nat)
    requires Inv(v) && Enabled(v, PersistWord(a))
    ensures Inv(Next(v, PersistWord(a)))
  {
    assert Win(Next(v, PersistWord(a)).dur) == Win(v.dur);
    if v.phase.Committing? {
      assert Get(v.cur.mem, a) == Get(v.dur.mem, a);
    }
  }

  lemma CrashKeeps(v: State)
    requires Inv(v)
    ensures Inv(Next(v, Crash))
  {
    var w := Next(v, Crash);
    if v.dur.head == v.dur.tail {
      NothingLogged(v.dur, v.spec);
      assert Window(w.cur.ring, w.cur.head, 0) == [];
    }
  }

  lemma UndoOneKeeps(v: State)
    requires Inv(v) && Enabled(v, UndoOne)
    ensures Inv(Next(v, UndoOne))
  {
    var w := Next(v, UndoOne);
    var i := v.phase.i;
    assert Win(w.cur) == Win(v.cur) == Win(v.dur);
    assert Win(v.cur)[i] == v.cur.ring[Slot(v.cur.head, i)];
    assert Logged(Win(v.dur), Win(v.dur)[i].addr);
  }

  lemma StoreResetKeeps(v: State)
    requires Inv(v) && Enabled(v, StoreReset)
    ensures Inv(Next(v, StoreReset))
  {
    forall a ensures Get(v.cur.mem, a) == Get(v.spec, a) {
      if Logged(Win(v.dur), a) {
        var j :| 0 <= j < |Win(v.dur)| && Win(v.dur)[j].addr == a;
      }
    }
  }

  lemma PersistResetKeeps(v: State)
    requires Inv(v) && Enabled(v, PersistReset)
    ensures Inv(Next(v, PersistReset))
  {
    var w := Next(v, PersistReset);
    assert Win(w.dur) == [];
    assert Window(w.cur.ring, w.cur.head, 0) == [];
  }

  lemma StepKeeps(v: State, t: Step)
    requires Inv(v) && Enabled(v, t)
    ensures Inv(Next(v, t))
  {
    hide Inv, Enabled, Next;
    match t {
      case Append(a) => AppendKeeps(v, a);
      case Fence => FenceKeeps(v);
      case StoreTail => StoreTailKeeps(v);
      case PersistTail => PersistTailKeeps(v);
      case Store(a, x) => StoreKeeps(v, a, x);
      case StoreHead => StoreHeadKeeps(v);
      case PersistHead => PersistHeadKeeps(v);
      case PersistSlot(j) => PersistSlotKeeps(v, j);
      case PersistWord(a) => PersistWordKeeps(v, a);
      case Crash => CrashKeeps(v);
      case UndoOne => UndoOneKeeps(v);
      case StoreReset => StoreResetKeeps(v);
      case PersistReset => PersistResetKeeps(v);
    }
  }

  // -------------------------------------------------------------- whole runs

  ghost predicate Init(v: State) {
    Ok(v.cur) && v.cur == v.dur && v.cur.head == v.cur.tail && v.spec == v.cur.mem && v.phase == Idle
  }

  lemma InitInv(v: State)
    requires Init(v)
    ensures Inv(v)
  {
    assert Win(v.dur) == [] && Window(v.cur.ring, v.cur.head, 0) == [];
  }

  ghost predicate IsRun(vs: seq<State>, ts: seq<Step>) {
    && |vs| == |ts| + 1 && Init(vs[0])
    && forall i | 0 <= i < |ts| ::
        Ok(vs[i].cur) && Ok(vs[i].dur) && Enabled(vs[i], ts[i]) && vs[i + 1] == Next(vs[i], ts[i])
  }

  lemma {:induction false} RunKeeps(vs: seq<State>, ts: seq<Step>, i: nat)
    requires IsRun(vs, ts) && i < |vs|
    ensures Inv(vs[i])
  {
    if i == 0 {
      InitInv(vs[0]);
    } else {
      RunKeeps(vs, ts, i - 1);
      StepKeeps(vs[i - 1], ts[i - 1]);
    }
  }

  /** Recovery after a crash at any moment, also one during an earlier recovery, gives the
      memory as of the last persistent commit, and only a commit becoming persistent changes
      what that is. */
  lemma AllOrNothing(vs: seq<State>, ts: seq<Step>, i: nat)
    requires IsRun(vs, ts) && i < |vs|
    ensures Ok(vs[i].dur) && Same(Recovered(vs[i].dur), vs[i].spec)
    ensures vs[i].phase == Idle ==> Same(vs[i].cur.mem, vs[i].spec)
    ensures i < |ts| && ts[i] != PersistHead ==> vs[i + 1].spec == vs[i].spec
  {
    RunKeeps(vs, ts, i);
    UndoIff(vs[i].spec, vs[i].dur.mem, Win(vs[i].dur));
  }

  /** The stores among some steps, applied in order. */
  ghost function Applied(m: Mem, ts: seq<Step>): Mem {
    if ts == [] then m
    else
      var r := Applied(m, ts[..|ts| - 1]);
      var t := ts[|ts| - 1];
      if t.Store? then r[t.a := t.v] else r
  }

  lemma {:induction false} NoCrashNoUndo(vs: seq<State>, ts: seq<Step>, i: nat, k: nat)
    requires IsRun(vs, ts) && i <= k < |vs| && vs[i].phase == Idle && Crash !in ts[i..k]
    ensures Same(vs[k].cur.mem, Applied(vs[i].spec, ts[i..k])) && !vs[k].phase.Undoing? && !vs[k].phase.Resetting?
    decreases k
  {
    RunKeeps(vs, ts, i);
    if k > i {
      var j := k - 1;
      assert ts[i..k] == ts[i..j] + [ts[j]];
      assert Crash !in ts[i..j] && ts[j] != Crash by {
        assert ts[j] in ts[i..k];
      }
      NoCrashNoUndo(vs, ts, i, j);
      StepStore(vs[j], ts[j], Applied(vs[i].spec, ts[i..j]));
    } else {
      assert ts[i..k] == [];
    }
  }

  lemma StepStore(v: State, t: Step, m: Mem)
    requires Ok(v.cur) && Ok(v.dur) && Enabled(v, t) && t != Crash && !v.phase.Undoing? && !v.phase.Resetting?
    requires Same(v.cur.mem, m)
    ensures var w := Next(v, t);
            !w.phase.Undoing? && !w.phase.Resetting? && Same(w.cur.mem, if t.Store? then m[t.a := t.v] else m)
  {
    var w := Next(v, t);
    if t.Store? {
      assert w.cur.mem == v.cur.mem[t.a := t.v];
      forall b ensures Get(w.cur.mem, b) == Get(m[t.a := t.v], b) { assert Get(v.cur.mem, b) == Get(m, b); }
    } else {
      assert w.cur.mem == v.cur.mem;
    }
  }

  /** A commit that becomes persistent takes in every store since the journal was last idle. */
  lemma CommitTakesAll(vs: seq<State>, ts: seq<Step>, i: nat, k: nat)
    requires IsRun(vs, ts) && i <= k < |ts| && vs[i].phase == Idle && Crash !in ts[i..k] && ts[k] == PersistHead
    ensures Same(vs[k + 1].spec, Applied(vs[i].spec, ts[i..k]))
  {
    NoCrashNoUndo(vs, ts, i, k);
  }

  // ------------------------------------------------- what the fences are for

  /** Without waiting for the stores, a persistent head commits exactly if every store of the
      transaction happens to be persistent already. */
  lemma CommitIff(v: State)
    requires Inv(v) && v.phase == Body
    ensures Same(Recovered(v.dur.(head := v.cur.tail)), v.cur.mem) <==> Same(v.dur.mem, v.cur.mem)
  {
    assert Win(v.dur.(head := v.cur.tail)) == [];
  }

  /** The same for the tail that recovery resets: nova_recover_lite_journal writes the undone
      words back without a fence before it, so this is what it needs. */
  lemma ResetIff(v: State)
    requires Inv(v) && v.phase == Undoing(Len(v.cur.head, v.cur.tail))
    ensures Same(Recovered(v.dur.(tail := v.cur.head)), v.spec) <==> Same(v.dur.mem, v.cur.mem)
  {
    assert Win(v.dur.(tail := v.cur.head)) == [];
    forall a ensures Get(v.cur.mem, a) == Get(v.spec, a) {
      if Logged(Win(v.dur), a) {
        var j :| 0 <= j < |Win(v.dur)| && Win(v.dur)[j].addr == a;
      }
    }
  }

  // ------------------------------------------------- a run to a reset too early

  ghost predicate Reachable(v: State) { exists vs: seq<State>, ts: seq<Step> :: IsRun(vs, ts) && vs[|ts|] == v }

  lemma ReachInit(v: State)
    requires Init(v)
    ensures Reachable(v)
  {
    assert IsRun([v], []);
  }

  lemma ReachStep(v: State, t: Step)
    requires Reachable(v) && Ok(v.cur) && Ok(v.dur) && Enabled(v, t)
    ensures Reachable(Next(v, t))
  {
    hide Enabled, Next, Init, Ok;
    var vs, ts :| IsRun(vs, ts) && vs[|ts|] == v;
    assert IsRun(vs + [Next(v, t)], ts + [t]);
  }

  function Blank(): (r: Ring)
    ensures forall j | 0 <= j < SLOTS :: r[j] == Rec(0, 0)
  {
    seq(SLOTS, _ => Rec(0, 0))
  }

  /** One word, logged as 0, is 5 in persistent memory when the power fails. */
  function Cut(): Image { Image(map[0 := 5], Blank(), 0, 1) }

  /** The journal of one entry, with its tail persistent. */
  function Logged1(): Image { Image(map[], Blank(), 0, 1) }

  lemma ReachLogged()
    ensures Reachable(State(Logged1(), Logged1(), map[], Body))
  {
    hide Reachable;
    var v0 := State(Image(map[], Blank(), 0, 0), Image(map[], Blank(), 0, 0), map[], Idle);
    ReachInit(v0);
    assert Put(Blank(), 0, Rec(0, 0)) == Blank();
    ReachStep(v0, Append(0));
    var v1 := v0.(phase := Filling(1));
    assert v1 == Next(v0, Append(0));
    ReachStep(v1, Fence);
    ReachStep(v1.(phase := Fenced(1)), StoreTail);
    var v2 := State(Logged1(), v0.dur, map[], Sealing(1));
    assert v2 == Next(v1.(phase := Fenced(1)), StoreTail);
    ReachStep(v2, PersistTail);
  }

  lemma ReachCut()
    ensures Reachable(State(Cut(), Cut(), map[], Undoing(0)))
  {
    hide Reachable;
    ReachLogged();
    var v3 := State(Logged1(), Logged1(), map[], Body);
    assert Win(v3.cur)[0].addr == 0;
    ReachStep(v3, Store(0, 5));
    var v4 := v3.(cur := Cut());
    assert v4 == Next(v3, Store(0, 5));
    ReachStep(v4, PersistWord(0));
    assert Next(v4, PersistWord(0)) == v4.(dur := Cut());
    ReachStep(v4.(dur := Cut()), Crash);
  }

  /** A run to the moment before the tail is reset: the undone word is in cache only, and a
      second power failure after the reset would keep the value of the open transaction. */
  lemma ResetTooEarly()
    ensures var v := State(Cut().(mem := map[0 := 0]), Cut(), map[], Undoing(1));
            && Reachable(v) && v.phase.i == Len(v.cur.head, v.cur.tail)
            && !Same(Recovered(v.dur.(tail := v.cur.head)), v.spec)
  {
    hide Reachable;
    ReachCut();
    var v := State(Cut(), Cut(), map[], Undoing(0));
    ReachStep(v, UndoOne);
    var w := Next(v, UndoOne);
    assert w == State(Cut().(mem := map[0 := 0]), Cut(), map[], Undoing(1));
    assert Win(w.dur.(tail := w.cur.head)) == [];
    assert Get(w.dur.mem, 0) == 5 && Get(w.spec, 0) == 0;
  }
}
