/** Snapshot retention in NOVA (nova/snapshot.c) as a step system: snapshots named by epoch,
    superseded blocks retained in the list of a snapshot, lists handed on when a snapshot is
    deleted, and the background cleaner, which works list by list between other steps. */
module NovaSnapshots {
  import opened Options

  /** Where a retained block is recorded: the list of snapshot `owner` for one processor, in a
      page written for snapshot `tag`. `died` is all that the entry says about its life. */
  datatype Held = Held(owner: nat, cpu: nat, tag: nat, died: nat)

  /** The epochs at which a block was written and superseded. */
  datatype Life = Life(born: nat, died: nat)

  /** The cleaner: idle, or about to clean list `cpu` of snapshot `target`. */
  datatype Pass = Idle | At(target: nat, cpu: nat)

  datatype State = State(
    epoch: nat,                 // s_epoch_id
    live: set<nat>,             // snapshot_info_tree
    hold: map<nat, Held>,       // undeleted list entries
    target: Option<nat>,        // curr_clean_snapshot_info
    pass: Pass,
    current: map<nat, nat>,     // blocks of the present files and the epoch each was written
    past: map<nat, Life>,       // superseded blocks
    freed: multiset<nat>,       // blocks given back, as often as they were
    astray: bool)               // the cleaner has followed a snapshot_info that is gone

  // ------------------------------------------------------- searching the tree

  /** The first snapshot at or after `e`, as nova_find_target_snapshot_info finds it. */
  ghost predicate IsFirst(live: set<nat>, e: nat, n: nat) {
    n in live && e <= n && forall s | s in live && e <= s :: n <= s
  }

  ghost predicate NoneFrom(live: set<nat>, e: nat) { forall s | s in live :: s < e }

  ghost function Least(s: set<nat>): (n: nat)
    requires s != {}
    ensures n in s && forall x | x in s :: n <= x
  {
    var y :| y in s;
    var r := s - {y};
    assert s == r + {y};
    if r == {} then y
    else
      var n := Least(r);
      if y < n then y else n
  }

  // ------------------------------------------------------------------- steps

  datatype Step =
    | Write(id: nat, born: nat)                         // a new block
    | Retire(id: nat, died: nat, cpu: nat, n: nat)      // superseded; `n` the snapshot found
    | Create                                            // nova_create_snapshot
    | CreateFails                                       // ... out of memory
    | HandOn(s: nat, n: nat)                            // nova_delete_snapshot, `n` the next one
    | DeleteLast(s: nat)                                // ... no later snapshot
    | CleanStart | CleanList | CleanEnd                 // nova_clean_snapshot

  /** nova_old_entry_deleteable, given the first snapshot from the birth of the block on. */
  ghost predicate Deletable(live: set<nat>, l: Life, n: nat)
  {
    l.born == l.died || NoneFrom(live, l.born) || n >= l.died
  }

  ghost predicate Sees(s: nat, l: Life) { l.born <= s < l.died }

  /** A superseded block may be freed at once exactly if no live snapshot sees it. */
  lemma DeletableIff(live: set<nat>, l: Life, n: nat)
    requires l.born <= l.died && (NoneFrom(live, l.born) || IsFirst(live, l.born, n))
    ensures Deletable(live, l, n) <==> forall s | s in live :: !Sees(s, l)
  {
    if !Deletable(live, l, n) { assert Sees(n, l); }
  }

  ghost predicate CanRetire(v: State, id: nat, died: nat, n: nat) {
    && id in v.current && v.current[id] <= died <= v.epoch
    && (NoneFrom(v.live, v.current[id]) || IsFirst(v.live, v.current[id], n))
  }

  function Moved(hold: map<nat, Held>, s: nat, n: nat): map<nat, Held> {
    map id | id in hold :: if hold[id].owner == s then hold[id].(owner := n) else hold[id]
  }

  function OwnedBy(hold: map<nat, Held>, s: nat): set<nat> { set id | id in hold && hold[id].owner == s }

  /** What cleaning list `cpu` of snapshot `n` frees: dead by `n`, in a page handed on. */
  function Cleanable(hold: map<nat, Held>, n: nat, cpu: nat): set<nat> {
    set id | id in hold && hold[id].owner == n && hold[id].cpu == cpu && hold[id].tag < n && hold[id].died <= n
  }

  /** Nothing is said of what follows once the cleaner has gone astray. */
  ghost predicate Enabled(v: State, cpus: nat, t: Step) {
    !v.astray &&
    match t
    case Write(id, born) => id !in v.current && id !in v.past && born <= v.epoch
    case Retire(id, died, cpu, n) => CanRetire(v, id, died, n) && cpu < cpus
    case Create => true
    case CreateFails => true
    case HandOn(s, n) => s in v.live && IsFirst(v.live, s + 1, n)
    case DeleteLast(s) => s in v.live && NoneFrom(v.live, s + 1)
    case CleanStart => v.pass == Idle && v.target != None
    case CleanList => v.pass != Idle && v.pass.cpu < cpus
    case CleanEnd => v.pass != Idle && v.pass.cpu == cpus
  }

  ghost function Retired(v: State, id: nat, died: nat, cpu: nat, n: nat): State
    requires CanRetire(v, id, died, n)
  {
    var l := Life(v.current[id], died);
    var w := v.(current := v.current - {id}, past := v.past[id := l]);
    if Deletable(v.live, l, n) then w.(freed := v.freed + multiset{id})
    else w.(hold := v.hold[id := Held(n, cpu, n, died)])
  }

  function Freeing(v: State, ids: set<nat>): State {
    v.(hold := v.hold - ids, freed := v.freed + multiset(ids))
  }

  ghost function Next(v: State, cpus: nat, t: Step): State
    requires Enabled(v, cpus, t)
  {
    match t
    case Write(id, born) => v.(current := v.current[id := born])
    case Retire(id, died, cpu, n) => Retired(v, id, died, cpu, n)
    case Create => v.(live := v.live + {v.epoch}, epoch := v.epoch + 1)
    case CreateFails => v.(epoch := v.epoch + 1)
    case HandOn(s, n) => v.(live := v.live - {s}, hold := Moved(v.hold, s, n), target := Some(n))
    case DeleteLast(s) => Freeing(v.(live := v.live - {s}), OwnedBy(v.hold, s))
    case CleanStart => v.(pass := At(v.target.value, 0))
    case CleanList =>
      if v.pass.target !in v.live then v.(astray := true)
      else Freeing(v.(pass := At(v.pass.target, v.pass.cpu + 1)), Cleanable(v.hold, v.pass.target, v.pass.cpu))
    case CleanEnd => v.(pass := Idle, target := None)
  }

  // --------------------------------------------------------------- invariant

  /** A retained block: every live snapshot older than the owner is older than the block. */
  ghost predicate HeldOK(live: set<nat>, l: Life, h: Held) {
    && h.owner in live && h.died == l.died && l.born <= h.owner
    && (forall s | s in live && s < h.owner :: s < l.born)
    && h.tag <= h.owner && (h.tag == h.owner ==> h.died > h.owner)
  }

  ghost predicate FreedOK(live: set<nat>, l: Life) { forall s | s in live :: !Sees(s, l) }

  ghost predicate Inv(v: State) {
    && (forall s | s in v.live :: s < v.epoch)
    && (forall id | id in v.current :: id !in v.past && v.current[id] <= v.epoch)
    && (forall id | id in v.past :: v.past[id].born <= v.past[id].died <= v.epoch)
    && (forall id | id in v.past :: v.freed[id] + (if id in v.hold then 1 else 0) == 1)
    && (forall id | id in v.hold :: id in v.past && HeldOK(v.live, v.past[id], v.hold[id]))
    && (forall id | id in v.freed :: id in v.past && FreedOK(v.live, v.past[id]))
  }

  ghost predicate Init(v: State) {
    v.live == {} && v.hold == map[] && v.current == map[] && v.past == map[] && v.freed == multiset{}
        && v.target == None && v.pass == Idle && !v.astray
  }

  lemma RetireKeeps(v: State, cpus: nat, id: nat, died: nat, cpu: nat, n: nat)
    requires Inv(v) && Enabled(v, cpus, Retire(id, died, cpu, n))
    ensures Inv(Next(v, cpus, Retire(id, died, cpu, n)))
  {
    hide HeldOK, FreedOK, Deletable, NoneFrom, IsFirst;
    var l := Life(v.current[id], died);
    RetiredOK(v.live, l, n, cpu);
    assert id !in v.hold && id !in v.freed;
  }

  lemma RetiredOK(live: set<nat>, l: Life, n: nat, cpu: nat)
    requires l.born <= l.died && (NoneFrom(live, l.born) || IsFirst(live, l.born, n))
    ensures if Deletable(live, l, n) then FreedOK(live, l) else HeldOK(live, l, Held(n, cpu, n, l.died))
  {
  }

  lemma HandOnHeld(live: set<nat>, l: Life, h: Held, s: nat, n: nat)
    requires HeldOK(live, l, h) && IsFirst(live, s + 1, n)
    ensures HeldOK(live - {s}, l, if h.owner == s then h.(owner := n) else h)
  {
  }

  lemma HandOnKeeps(v: State, cpus: nat, s: nat, n: nat)
    requires Inv(v) && Enabled(v, cpus, HandOn(s, n))
    ensures Inv(Next(v, cpus, HandOn(s, n)))
  {
    hide HeldOK;
    forall id | id in v.hold ensures HeldOK(v.live - {s}, v.past[id], Moved(v.hold, s, n)[id]) {
      HandOnHeld(v.live, v.past[id], v.hold[id], s, n);
    }
  }

  /** Giving back retained blocks that no remaining snapshot sees. */
  lemma FreeKeeps(v: State, ids: set<nat>)
    requires Inv(v) && ids <= v.hold.Keys
    requires forall id | id in ids :: FreedOK(v.live, v.past[id])
    ensures Inv(Freeing(v, ids))
  {
  }

  lemma DeleteLastKeeps(v: State, cpus: nat, s: nat)
    requires Inv(v) && Enabled(v, cpus, DeleteLast(s))
    ensures Inv(Next(v, cpus, DeleteLast(s)))
  {
    var w := Next(v, cpus, DeleteLast(s));
    forall id | id in w.freed ensures id in w.past && FreedOK(w.live, w.past[id]) {
      if id in v.hold { assert HeldOK(v.live, v.past[id], v.hold[id]); }
    }
    forall id | id in w.hold ensures HeldOK(w.live, w.past[id], w.hold[id]) {
      assert HeldOK(v.live, v.past[id], v.hold[id]);
    }
  }

  lemma CleanKeeps(v: State, cpus: nat)
    requires Inv(v) && Enabled(v, cpus, CleanList)
    ensures Inv(Next(v, cpus, CleanList))
  {
    if v.pass.target !in v.live { return; }
    var ids := Cleanable(v.hold, v.pass.target, v.pass.cpu);
    forall id | id in ids ensures FreedOK(v.live, v.past[id]) {
      assert HeldOK(v.live, v.past[id], v.hold[id]);
    }
    FreeKeeps(v.(pass := At(v.pass.target, v.pass.cpu + 1)), ids);
  }

  lemma CreateKeeps(v: State, cpus: nat)
    requires Inv(v) && Enabled(v, cpus, Create)
    ensures Inv(Next(v, cpus, Create))
  {
    var w := Next(v, cpus, Create);
    forall id | id in w.hold ensures HeldOK(w.live, w.past[id], w.hold[id]) {
      assert HeldOK(v.live, v.past[id], v.hold[id]);
    }
    forall id | id in w.freed ensures FreedOK(w.live, w.past[id]) {
      assert FreedOK(v.live, v.past[id]);
    }
  }

  lemma StepKeeps(v: State, cpus: nat, t: Step)
    requires Inv(v) && Enabled(v, cpus, t)
    ensures Inv(Next(v, cpus, t))
  {
    match t {
      case Retire(id, died, cpu, n) => RetireKeeps(v, cpus, id, died, cpu, n);
      case Create => CreateKeeps(v, cpus);
      case HandOn(s, n) => HandOnKeeps(v, cpus, s, n);
      case DeleteLast(s) => DeleteLastKeeps(v, cpus, s);
      case CleanList => CleanKeeps(v, cpus);
      case _ =>
    }
  }

  // -------------------------------------------------------------- whole runs

  ghost predicate IsRun(cpus: nat, vs: seq<State>, ts: seq<Step>) {
    && |vs| == |ts| + 1 && Init(vs[0])
    && forall i | 0 <= i < |ts| :: Enabled(vs[i], cpus, ts[i]) && vs[i + 1] == Next(vs[i], cpus, ts[i])
  }

  lemma {:induction false} RunKeeps(cpus: nat, vs: seq<State>, ts: seq<Step>, i: nat)
    requires IsRun(cpus, vs, ts) && i < |vs|
    ensures Inv(vs[i])
  {
    if i > 0 {
      RunKeeps(cpus, vs, ts, i - 1);
      StepKeeps(vs[i - 1], cpus, ts[i - 1]);
    }
  }

  /** In every reachable state a superseded block that a live snapshot sees is retained and
      has not been given back; a block of the present files has not been given back; no
      block has been given back twice; and a block neither retained nor present is free. */
  lemma SnapshotSafety(cpus: nat, vs: seq<State>, ts: seq<Step>, i: nat, id: nat)
    requires IsRun(cpus, vs, ts) && i < |vs|
    ensures var v := vs[i];
            && v.freed[id] <= 1
            && (id in v.current ==> v.freed[id] == 0 && id !in v.hold)
            && (id in v.past ==> (id in v.hold <==> v.freed[id] == 0))
            && forall s | id in v.past && s in v.live && Sees(s, v.past[id]) :: id in v.hold && v.freed[id] == 0
  {
    RunKeeps(cpus, vs, ts, i);
    var v := vs[i];
    if id in v.past {
      forall s | s in v.live && Sees(s, v.past[id]) ensures v.freed[id] == 0 {
        assert id in v.freed ==> FreedOK(v.live, v.past[id]);
      }
    } else {
      assert id !in v.freed;
    }
  }

  // -------------------------------------------------- snapshots that are gone

  /** The cleaner is set on a snapshot that has been deleted. */
  ghost predicate Dangling(v: State) {
    (v.target != None && v.target.value !in v.live) || (v.pass != Idle && v.pass.target !in v.live)
  }

  /** The deletion takes away the snapshot being cleaned, or the last one while it waits. */
  ghost predicate Orphans(v: State, t: Step) {
    match t
    case HandOn(s, n) => v.pass != Idle && v.pass.target == s
    case DeleteLast(s) => (v.pass != Idle && v.pass.target == s) || v.target == Some(s)
    case _ => false
  }

  /** Every step, deletions included: the cleaner is left with a snapshot that is gone exactly
      if the deletion orphans it. */
  lemma DanglingIff(v: State, cpus: nat, t: Step)
    requires Enabled(v, cpus, t) && !Dangling(v)
    ensures Dangling(Next(v, cpus, t)) <==> Orphans(v, t)
  {
    match t {
      case HandOn(s, n) => FirstIsLater(v.live, s, n);
      case _ =>
    }
  }

  /** A run goes astray exactly when the cleaner comes to a list of such a snapshot; a run
      whose deletions orphan nothing never does. */
  lemma {:induction false} NeverAstray(cpus: nat, vs: seq<State>, ts: seq<Step>, i: nat)
    requires IsRun(cpus, vs, ts) && i < |vs| && forall j | 0 <= j < i :: !Orphans(vs[j], ts[j])
    ensures !Dangling(vs[i]) && !vs[i].astray
  {
    if i > 0 {
      NeverAstray(cpus, vs, ts, i - 1);
      DanglingIff(vs[i - 1], cpus, ts[i - 1]);
    }
  }

  // ------------------------------------------------------------- reclamation

  /** A retained block is in reach of the pass under way or, if there is none, of the next.
      The end of a pass clears the target, whatever it has become by then. */
  ghost predicate Waiting(v: State, h: Held) {
    if v.pass == Idle then v.target == Some(h.owner) else v.pass.target == h.owner && v.pass.cpu <= h.cpu
  }

  /** Every retained block that its owner does not see waits for the cleaner. */
  ghost predicate Tidy(v: State, cpus: nat) {
    && !Dangling(v) && (v.pass != Idle ==> v.target != None)
    && forall id | id in v.hold ::
        v.hold[id].cpu < cpus && (v.hold[id].died <= v.hold[id].owner ==> Waiting(v, v.hold[id]))
  }

  /** Deleting `s` loses cleaning work: with no pass under way, some block waits in a list
      other than the two joined; with a pass under way, it will not come, or not come any
      more, to some block handed on that `n` does not see. */
  ghost predicate Loses(v: State, s: nat, n: nat) {
    if v.pass == Idle then exists id ::
        id in v.hold && v.hold[id].owner != s && v.hold[id].owner != n && v.hold[id].died <= v.hold[id].owner
    else exists id ::
        id in v.hold && v.hold[id].owner == s && v.hold[id].died <= n
        && !(v.pass.target == n && v.pass.cpu <= v.hold[id].cpu)
  }

  /** A deletion keeps all cleaning work in reach exactly if it loses none and orphans nothing,
      whatever the cleaner is doing. */
  lemma HandOnTidyIff(v: State, cpus: nat, s: nat, n: nat)
    requires Inv(v) && Tidy(v, cpus) && Enabled(v, cpus, HandOn(s, n))
    ensures Tidy(Next(v, cpus, HandOn(s, n)), cpus) <==> !Loses(v, s, n) && !Orphans(v, HandOn(s, n))
  {
    hide Inv, IsFirst, HeldOK;
    var w := Next(v, cpus, HandOn(s, n));
    DanglingIff(v, cpus, HandOn(s, n));
    FirstIsLater(v.live, s, n);
    if v.pass == Idle {
      if id :| id in v.hold && v.hold[id].owner != s && v.hold[id].owner != n && v.hold[id].died <= v.hold[id].owner {
        assert id in w.hold && !Waiting(w, w.hold[id]);
      }
    }
    if v.pass != Idle {
      if id :|
        id in v.hold && v.hold[id].owner == s && v.hold[id].died <= n
        && !(v.pass.target == n && v.pass.cpu <= v.hold[id].cpu)
      {
        assert id in w.hold && !Waiting(w, w.hold[id]);
      }
    }
    if !Loses(v, s, n) {
      forall id | id in w.hold
        ensures w.hold[id].cpu < cpus && (w.hold[id].died <= w.hold[id].owner ==> Waiting(w, w.hold[id]))
      {
        assert id in v.hold;
      }
    }
  }

  /** Deleting the last snapshot loses no work. */
  lemma DeleteLastTidyIff(v: State, cpus: nat, s: nat)
    requires Inv(v) && Tidy(v, cpus) && Enabled(v, cpus, DeleteLast(s))
    ensures Tidy(Next(v, cpus, DeleteLast(s)), cpus) <==> !Orphans(v, DeleteLast(s))
  {
    hide Inv, NoneFrom;
    DanglingIff(v, cpus, DeleteLast(s));
  }

  lemma FirstIsLater(live: set<nat>, s: nat, n: nat)
    requires IsFirst(live, s + 1, n)
    ensures n in live && s < n
  {
  }

  /** A step that leaves no cleaning work behind. */
  ghost predicate Quiet(v: State, t: Step) { !Orphans(v, t) && (t.HandOn? ==> !Loses(v, t.s, t.n)) }

  lemma TidyRetire(v: State, cpus: nat, id: nat, died: nat, cpu: nat, n: nat)
    requires Tidy(v, cpus) && Enabled(v, cpus, Retire(id, died, cpu, n))
    ensures Tidy(Next(v, cpus, Retire(id, died, cpu, n)), cpus)
  {
    hide NoneFrom, IsFirst;
  }

  lemma TidyClean(v: State, cpus: nat)
    requires Inv(v) && Tidy(v, cpus) && Enabled(v, cpus, CleanList)
    ensures Tidy(Next(v, cpus, CleanList), cpus)
  {
    var w := Next(v, cpus, CleanList);
    forall id | id in w.hold
      ensures w.hold[id].cpu < cpus && (w.hold[id].died <= w.hold[id].owner ==> Waiting(w, w.hold[id]))
    {
      assert HeldOK(v.live, v.past[id], v.hold[id]);
    }
  }

  /** Every step keeps all cleaning work in reach exactly if it is quiet. */
  lemma TidyIff(v: State, cpus: nat, t: Step)
    requires Inv(v) && Tidy(v, cpus) && Enabled(v, cpus, t)
    ensures Tidy(Next(v, cpus, t), cpus) <==> Quiet(v, t)
  {
    hide Inv, Tidy, Next, Enabled, Loses;
    match t {
      case Retire(id, died, cpu, n) => TidyRetire(v, cpus, id, died, cpu, n);
      case HandOn(s, n) => HandOnTidyIff(v, cpus, s, n);
      case DeleteLast(s) => DeleteLastTidyIff(v, cpus, s);
      case CleanList => TidyClean(v, cpus);
      case _ => TidyOther(v, cpus, t);
    }
  }

  lemma TidyOther(v: State, cpus: nat, t: Step)
    requires Tidy(v, cpus) && Enabled(v, cpus, t)
    requires t.Write? || t == Create || t == CreateFails || t == CleanStart || t == CleanEnd
    ensures Tidy(Next(v, cpus, t), cpus)
  {
  }

  lemma {:induction false} RunTidy(cpus: nat, vs: seq<State>, ts: seq<Step>, i: nat)
    requires IsRun(cpus, vs, ts) && i < |vs| && forall j | 0 <= j < i :: Quiet(vs[j], ts[j])
    ensures Tidy(vs[i], cpus)
  {
    if i > 0 {
      RunTidy(cpus, vs, ts, i - 1);
      RunKeeps(cpus, vs, ts, i - 1);
      TidyIff(vs[i - 1], cpus, ts[i - 1]);
    }
  }

  /** Once the cleaner has nothing left to do, the superseded blocks that no live snapshot
      sees have been given back, each exactly once, and what list `n` still retains was
      superseded after epoch `n`. */
  lemma Reclaimed(cpus: nat, vs: seq<State>, ts: seq<Step>, i: nat, id: nat)
    requires IsRun(cpus, vs, ts) && i < |vs| && (forall j | 0 <= j < i :: Quiet(vs[j], ts[j]))
    requires vs[i].target == None && id in vs[i].past
    ensures var v := vs[i];
            && (v.freed[id] == 1 <==> forall s | s in v.live :: !Sees(s, v.past[id]))
            && (id in v.hold ==> v.hold[id].owner in v.live && Sees(v.hold[id].owner, v.past[id]))
  {
    RunTidy(cpus, vs, ts, i);
    RunKeeps(cpus, vs, ts, i);
    var v := vs[i];
    if id in v.hold {
      assert HeldOK(v.live, v.past[id], v.hold[id]);
      assert Sees(v.hold[id].owner, v.past[id]);
    } else {
      assert id in v.freed && FreedOK(v.live, v.past[id]);
    }
  }

  lemma IsFirstOf(live: set<nat>, e: nat, n: nat)
    requires n in live && e <= n && forall s | s in live :: s < e || n <= s
    ensures IsFirst(live, e, n)
  {
  }

  ghost predicate Goes(v: State, t: Step, w: State) { Enabled(v, 1, t) && w == Next(v, 1, t) }

  /** The states of the run below: `e` epochs begun, block 7 owned by snapshot `owner`. */
  ghost function Holding(e: nat, live: set<nat>, owner: nat, target: Option<nat>, pass: Pass): State {
    State(e, live, map[7 := Held(owner, 0, 0, 1)], target, pass, map[], map[7 := Life(0, 1)], multiset{}, false)
  }

  lemma RunBegins(v0: State, v1: State, v2: State)
    requires v0 == State(0, {}, map[], None, Idle, map[], map[], multiset{}, false)
    requires v1 == v0.(current := map[7 := 0]) && v2 == v1.(live := {0}, epoch := 1)
    ensures Goes(v0, Write(7, 0), v1) && Goes(v1, Create, v2)
    ensures Goes(v2, Retire(7, 1, 0, 0), Holding(1, {0}, 0, None, Idle))
  {
    var w := Next(v2, 1, Retire(7, 1, 0, 0));
    assert w.hold == map[7 := Held(0, 0, 0, 1)] && w.current == map[];
  }

  lemma MoreSnapshots()
    ensures Goes(Holding(1, {0}, 0, None, Idle), Create, Holding(2, {0, 1}, 0, None, Idle))
    ensures Goes(Holding(2, {0, 1}, 0, None, Idle), Create, Holding(3, {0, 1, 2}, 0, None, Idle))
    ensures Goes(Holding(3, {0, 1, 2}, 0, None, Idle), Create, Holding(4, {0, 1, 2, 3}, 0, None, Idle))
  {
  }

  lemma TwoDeletions()
    ensures Goes(Holding(4, {0, 1, 2, 3}, 0, None, Idle), HandOn(0, 1), Holding(4, {1, 2, 3}, 1, Some(1), Idle))
    ensures Goes(Holding(4, {1, 2, 3}, 1, Some(1), Idle), HandOn(2, 3), Holding(4, {1, 3}, 1, Some(3), Idle))
  {
    var v, w := Holding(4, {0, 1, 2, 3}, 0, None, Idle), Holding(4, {1, 2, 3}, 1, Some(1), Idle);
    IsFirstOf(v.live, 1, 1);
    assert v.live - {0} == w.live && Moved(v.hold, 0, 1) == w.hold;
    IsFirstOf(w.live, 3, 3);
    assert w.live - {2} == {1, 3} && Moved(w.hold, 2, 3) == w.hold;
  }

  lemma OnePass()
    ensures Goes(Holding(4, {1, 3}, 1, Some(3), Idle), CleanStart, Holding(4, {1, 3}, 1, Some(3), At(3, 0)))
    ensures Goes(Holding(4, {1, 3}, 1, Some(3), At(3, 0)), CleanList, Holding(4, {1, 3}, 1, Some(3), At(3, 1)))
    ensures Goes(Holding(4, {1, 3}, 1, Some(3), At(3, 1)), CleanEnd, Holding(4, {1, 3}, 1, None, Idle))
  {
    var v := Holding(4, {1, 3}, 1, Some(3), At(3, 0));
    assert Cleanable(v.hold, 3, 0) == {};
    assert v.hold - {} == v.hold && v.freed + multiset({}) == v.freed;
  }

  /** A second deletion before the cleaner has run drops the pending target: the block
      written in epoch 0 and superseded in epoch 1 stays retained although the cleaner is
      idle with nothing to do and neither live snapshot, 1 or 3, sees it. */
  lemma LostPass() returns (vs: seq<State>, ts: seq<Step>)
    ensures IsRun(1, vs, ts)
    ensures ts == [Write(7, 0), Create, Retire(7, 1, 0, 0), Create, Create, Create,
                   HandOn(0, 1), HandOn(2, 3), CleanStart, CleanList, CleanEnd]
    ensures var w := vs[|ts|];
            && w.target == None && w.pass == Idle && w.live == {1, 3}
            && 7 in w.hold && 7 in w.past && forall s | s in w.live :: !Sees(s, w.past[7])
  {
    hide Enabled, Next;
    var v0 := State(0, {}, map[], None, Idle, map[], map[], multiset{}, false);
    var v1 := v0.(current := map[7 := 0]);
    var v2 := v1.(live := {0}, epoch := 1);
    RunBegins(v0, v1, v2);
    MoreSnapshots();
    TwoDeletions();
    OnePass();
    vs := [v0, v1, v2, Holding(1, {0}, 0, None, Idle), Holding(2, {0, 1}, 0, None, Idle),
           Holding(3, {0, 1, 2}, 0, None, Idle),
           Holding(4, {0, 1, 2, 3}, 0, None, Idle), Holding(4, {1, 2, 3}, 1, Some(1), Idle),
           Holding(4, {1, 3}, 1, Some(3), Idle),
           Holding(4, {1, 3}, 1, Some(3), At(3, 0)), Holding(4, {1, 3}, 1, Some(3), At(3, 1)),
           Holding(4, {1, 3}, 1, None, Idle)];
    ts := [Write(7, 0), Create, Retire(7, 1, 0, 0), Create, Create, Create,
           HandOn(0, 1), HandOn(2, 3), CleanStart, CleanList, CleanEnd];
    IsRunOf(vs, ts);
  }

  lemma LateDeletion()
    ensures Goes(Holding(3, {0, 1, 2}, 0, None, Idle), HandOn(1, 2), Holding(3, {0, 2}, 0, Some(2), Idle))
    ensures Goes(Holding(3, {0, 2}, 0, Some(2), At(2, 1)), HandOn(0, 2), Holding(3, {2}, 2, Some(2), At(2, 1)))
  {
    var v, w := Holding(3, {0, 1, 2}, 0, None, Idle), Holding(3, {0, 2}, 0, Some(2), At(2, 1));
    IsFirstOf(v.live, 2, 2);
    assert v.live - {1} == {0, 2} && Moved(v.hold, 1, 2) == v.hold;
    IsFirstOf(w.live, 1, 2);
    assert w.live - {0} == {2} && Moved(w.hold, 0, 2) == map[7 := Held(2, 0, 0, 1)];
  }

  lemma EarlyPass()
    ensures Goes(Holding(3, {0, 2}, 0, Some(2), Idle), CleanStart, Holding(3, {0, 2}, 0, Some(2), At(2, 0)))
    ensures Goes(Holding(3, {0, 2}, 0, Some(2), At(2, 0)), CleanList, Holding(3, {0, 2}, 0, Some(2), At(2, 1)))
    ensures Goes(Holding(3, {2}, 2, Some(2), At(2, 1)), CleanEnd, Holding(3, {2}, 2, None, Idle))
  {
    var u := Holding(3, {0, 2}, 0, Some(2), At(2, 0));
    assert Cleanable(u.hold, 2, 0) == {} && u.hold - {} == u.hold && u.freed + multiset({}) == u.freed;
  }

  /** A deletion while the snapshot after it is being cleaned hands block 7 to a list that the
      pass has left, and the end of the pass clears the target. */
  lemma LostInPass() returns (vs: seq<State>, ts: seq<Step>)
    ensures IsRun(1, vs, ts)
    ensures ts == [Write(7, 0), Create, Retire(7, 1, 0, 0), Create, Create, HandOn(1, 2), CleanStart, CleanList,
                   HandOn(0, 2), CleanEnd]
    ensures var w := vs[|ts|];
            && w.target == None && w.pass == Idle && w.live == {2}
            && 7 in w.hold && 7 in w.past && forall s | s in w.live :: !Sees(s, w.past[7])
  {
    hide Enabled, Next;
    var v0 := State(0, {}, map[], None, Idle, map[], map[], multiset{}, false);
    var v1 := v0.(current := map[7 := 0]);
    var v2 := v1.(live := {0}, epoch := 1);
    RunBegins(v0, v1, v2);
    MoreSnapshots();
    LateDeletion();
    EarlyPass();
    vs := [v0, v1, v2, Holding(1, {0}, 0, None, Idle), Holding(2, {0, 1}, 0, None, Idle),
           Holding(3, {0, 1, 2}, 0, None, Idle),
           Holding(3, {0, 2}, 0, Some(2), Idle), Holding(3, {0, 2}, 0, Some(2), At(2, 0)),
           Holding(3, {0, 2}, 0, Some(2), At(2, 1)),
           Holding(3, {2}, 2, Some(2), At(2, 1)), Holding(3, {2}, 2, None, Idle)];
    ts := [Write(7, 0), Create, Retire(7, 1, 0, 0), Create, Create, HandOn(1, 2), CleanStart, CleanList, HandOn(0, 2),
           CleanEnd];
    IsRunOf(vs, ts);
  }

  // ------------------------------------------- runs that leave a snapshot dangling

  /** `e` snapshots were created and no block written. */
  ghost function Bare(e: nat, live: set<nat>, target: Option<nat>, pass: Pass, astray: bool): State {
    State(e, live, map[], target, pass, map[], map[], multiset{}, astray)
  }

  lemma BareCreates()
    ensures Goes(Bare(0, {}, None, Idle, false), Create, Bare(1, {0}, None, Idle, false))
    ensures Goes(Bare(1, {0}, None, Idle, false), Create, Bare(2, {0, 1}, None, Idle, false))
    ensures Goes(Bare(2, {0, 1}, None, Idle, false), Create, Bare(3, {0, 1, 2}, None, Idle, false))
  {
  }

  lemma BareHandOn(e: nat, live: set<nat>, live': set<nat>, s: nat, n: nat, target: Option<nat>, pass: Pass)
    requires s in live && n in live && s < n && (forall x | x in live :: x <= s || n <= x) && live' == live - {s}
    ensures Goes(Bare(e, live, target, pass, false), HandOn(s, n), Bare(e, live', Some(n), pass, false))
  {
    IsFirstOf(live, s + 1, n);
    assert Moved(map[], s, n) == map[];
  }

  lemma BareDeleteLast(e: nat, s: nat, target: Option<nat>, pass: Pass)
    ensures Goes(Bare(e, {s}, target, pass, false), DeleteLast(s), Bare(e, {}, target, pass, false))
  {
    var v := Bare(e, {s}, target, pass, false);
    assert OwnedBy(v.hold, s) == {} && v.hold - {} == v.hold && v.freed + multiset({}) == v.freed && v.live - {s} == {};
  }

  /** The last snapshot is deleted while it waits to be cleaned. */
  lemma TargetFreed() returns (vs: seq<State>, ts: seq<Step>)
    ensures IsRun(1, vs, ts) && ts == [Create, Create, HandOn(0, 1), DeleteLast(1), CleanStart, CleanList]
    ensures vs[3].target == Some(1) && Dangling(vs[4]) && vs[|ts|].astray
  {
    hide Enabled, Next;
    ts := [Create, Create, HandOn(0, 1), DeleteLast(1), CleanStart, CleanList];
    vs := [Bare(0, {}, None, Idle, false), Bare(1, {0}, None, Idle, false), Bare(2, {0, 1}, None, Idle, false),
           Bare(2, {1}, Some(1), Idle, false), Bare(2, {}, Some(1), Idle, false), Bare(2, {}, Some(1), At(1, 0), false),
           Bare(2, {}, Some(1), At(1, 0), true)];
    BareCreates();
    BareHandOn(2, {0, 1}, {1}, 0, 1, None, Idle);
    BareDeleteLast(2, 1, Some(1), Idle);
    CleanerGoes(2, {}, Some(1), 1);
    IsRunOf(vs, ts);
  }

  lemma CleanerGoes(e: nat, live: set<nat>, target: Option<nat>, n: nat)
    ensures Goes(Bare(e, live, Some(n), Idle, false), CleanStart, Bare(e, live, Some(n), At(n, 0), false))
    ensures n !in live ==>
              Goes(Bare(e, live, target, At(n, 0), false), CleanList, Bare(e, live, target, At(n, 0), true))
  {
  }

  lemma IsRunOf(vs: seq<State>, ts: seq<Step>)
    requires |vs| == |ts| + 1 && Init(vs[0]) && forall i | 0 <= i < |ts| :: Goes(vs[i], ts[i], vs[i + 1])
    ensures IsRun(1, vs, ts)
  {
    forall i | 0 <= i < |ts| ensures Enabled(vs[i], 1, ts[i]) && vs[i + 1] == Next(vs[i], 1, ts[i]) {
      assert Goes(vs[i], ts[i], vs[i + 1]);
    }
  }

  /** ... or while it is being cleaned. */
  lemma PassFreed() returns (vs: seq<State>, ts: seq<Step>)
    ensures IsRun(1, vs, ts) && ts == [Create, Create, HandOn(0, 1), CleanStart, DeleteLast(1), CleanList]
    ensures vs[4].pass == At(1, 0) && Dangling(vs[5]) && vs[|ts|].astray
  {
    hide Enabled, Next;
    ts := [Create, Create, HandOn(0, 1), CleanStart, DeleteLast(1), CleanList];
    vs := [Bare(0, {}, None, Idle, false), Bare(1, {0}, None, Idle, false), Bare(2, {0, 1}, None, Idle, false),
           Bare(2, {1}, Some(1), Idle, false), Bare(2, {1}, Some(1), At(1, 0), false),
           Bare(2, {}, Some(1), At(1, 0), false),
           Bare(2, {}, Some(1), At(1, 0), true)];
    BareCreates();
    BareHandOn(2, {0, 1}, {1}, 0, 1, None, Idle);
    CleanerGoes(2, {1}, Some(1), 1);
    BareDeleteLast(2, 1, Some(1), At(1, 0));
    CleanerGoes(2, {}, Some(1), 1);
    IsRunOf(vs, ts);
  }

  /** A snapshot in the middle is deleted while it is being cleaned. */
  lemma PassHandedOn() returns (vs: seq<State>, ts: seq<Step>)
    ensures IsRun(1, vs, ts) && ts == [Create, Create, Create, HandOn(0, 1), CleanStart, HandOn(1, 2), CleanList]
    ensures vs[5].pass == At(1, 0) && Dangling(vs[6]) && vs[|ts|].astray
  {
    hide Enabled, Next;
    ts := [Create, Create, Create, HandOn(0, 1), CleanStart, HandOn(1, 2), CleanList];
    vs := [Bare(0, {}, None, Idle, false), Bare(1, {0}, None, Idle, false), Bare(2, {0, 1}, None, Idle, false),
           Bare(3, {0, 1, 2}, None, Idle, false), Bare(3, {1, 2}, Some(1), Idle, false),
           Bare(3, {1, 2}, Some(1), At(1, 0), false),
           Bare(3, {2}, Some(2), At(1, 0), false), Bare(3, {2}, Some(2), At(1, 0), true)];
    BareCreates();
    BareHandOn(3, {0, 1, 2}, {1, 2}, 0, 1, None, Idle);
    CleanerGoes(3, {1, 2}, Some(1), 1);
    BareHandOn(3, {1, 2}, {2}, 1, 2, Some(1), At(1, 0));
    CleanerGoes(3, {2}, Some(2), 1);
    IsRunOf(vs, ts);
  }
}
