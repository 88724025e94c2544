/** The snapshot code of NOVA (nova/snapshot.c) over per-processor page lists, proved to take
    the steps of the retention step system. */
module NovaSnapshotStore {
  import opened Options
  import opened NovaSnapshots
  import opened NovaSnapshotLists

  // ------------------------------------------------- lists and retained blocks

  /** The rows of list `cpu` of snapshot `n` are the blocks retained there, once each. */
  ghost predicate Records(rows: seq<Row>, hold: map<nat, Held>, n: nat, cpu: nat) {
    && (forall i, j | 0 <= i < j < |rows| :: rows[i].id != rows[j].id)
    && (forall r | r in rows :: r.id in hold && hold[r.id] == Held(n, cpu, r.tag, r.died))
    && (forall id | id in hold && hold[id].owner == n && hold[id].cpu == cpu :: id in Ids(rows))
  }

  function At'(hold: map<nat, Held>, n: nat, cpu: nat): set<nat> {
    set id | id in hold && hold[id].owner == n && hold[id].cpu == cpu
  }

  lemma InIds(rows: seq<Row>, id: nat)
    ensures id in Ids(rows) <==> exists r :: r in rows && r.id == id
  {
    if id in Ids(rows) {
      var i :| 0 <= i < |rows| && Ids(rows)[i] == id;
      assert rows[i] in rows;
    }
    if r :| r in rows && r.id == id {
      var i :| 0 <= i < |rows| && rows[i] == r;
      assert Ids(rows)[i] == id;
    }
  }

  lemma RecordsAppend(rows: seq<Row>, hold: map<nat, Held>, n: nat, cpu: nat, id: nat, died: nat)
    requires Records(rows, hold, n, cpu) && id !in hold
    ensures Records(rows + [Row(id, died, n)], hold[id := Held(n, cpu, n, died)], n, cpu)
  {
    var rows' := rows + [Row(id, died, n)];
    assert Ids(rows') == Ids(rows) + [id];
    forall i | 0 <= i < |rows| ensures rows[i].id != id { assert rows[i] in rows; }
  }

  lemma RecordsOther(rows: seq<Row>, hold: map<nat, Held>, hold': map<nat, Held>, n: nat, cpu: nat)
    requires Records(rows, hold, n, cpu)
    requires forall id | id in hold && hold[id].owner == n && hold[id].cpu == cpu ::
               id in hold' && hold'[id] == hold[id]
    requires forall id | id in hold' && hold'[id].owner == n && hold'[id].cpu == cpu :: id in hold
    requires forall id | id in hold && id in hold' && hold'[id].owner == n && hold'[id].cpu == cpu ::
               hold[id] == hold'[id]
    ensures Records(rows, hold', n, cpu)
  {
  }

  lemma RecordsJoin(rs: seq<Row>, rn: seq<Row>, hold: map<nat, Held>, s: nat, n: nat, cpu: nat)
    requires Records(rs, hold, s, cpu) && Records(rn, hold, n, cpu) && s != n
    ensures Records(rs + rn, Moved(hold, s, n), n, cpu)
  {
    var rows := rs + rn;
    assert Ids(rows) == Ids(rs) + Ids(rn);
    forall i, j | 0 <= i < j < |rows| ensures rows[i].id != rows[j].id {
      if i < |rs| <= j {
        assert rows[i] in rs && rows[j] in rn;
      }
    }
  }

  lemma {:induction false} KeptIn(rows: seq<Row>, n: nat, r: Row)
    ensures r in Kept(rows, n) <==> r in rows && !Stale(r, n)
  {
    hide Stale;
    if rows != [] {
      var k := |rows| - 1;
      KeptIn(rows[..k], n, r);
      assert rows == rows[..k] + [rows[k]];
    }
  }

  lemma {:induction false} GoneIn(rows: seq<Row>, n: nat, id: nat)
    ensures id in Gone(rows, n) <==> exists r :: r in rows && Stale(r, n) && r.id == id
  {
    hide Stale;
    if rows != [] {
      var k := |rows| - 1;
      GoneIn(rows[..k], n, id);
      assert rows == rows[..k] + [rows[k]];
      if r :| r in rows[..k] && Stale(r, n) && r.id == id { assert r in rows; }
    }
  }

  lemma {:induction false} KeptDistinct(rows: seq<Row>, n: nat)
    requires forall i, j | 0 <= i < j < |rows| :: rows[i].id != rows[j].id
    ensures forall i, j | 0 <= i < j < |Kept(rows, n)| :: Kept(rows, n)[i].id != Kept(rows, n)[j].id
  {
    hide Stale;
    if rows != [] {
      var k := |rows| - 1;
      var front, last := rows[..k], rows[k];
      KeptDistinct(front, n);
      forall r | r in Kept(front, n) ensures r.id != last.id {
        KeptIn(front, n, r);
        LastDiffers(rows, r);
      }
      forall i | 0 <= i < |Kept(front, n)|
        ensures Kept(front, n)[i].id != last.id
      {
        assert Kept(front, n)[i] in Kept(front, n);
      }
    }
  }

  lemma {:induction false} GoneDistinct(rows: seq<Row>, n: nat)
    requires forall i, j | 0 <= i < j < |rows| :: rows[i].id != rows[j].id
    ensures forall i, j | 0 <= i < j < |Gone(rows, n)| :: Gone(rows, n)[i] != Gone(rows, n)[j]
  {
    hide Stale;
    if rows != [] {
      var k := |rows| - 1;
      var front, last := rows[..k], rows[k];
      GoneDistinct(front, n);
      GoneIn(front, n, last.id);
      if r :| r in front && Stale(r, n) && r.id == last.id { LastDiffers(rows, r); }
      forall i | 0 <= i < |Gone(front, n)|
        ensures Gone(front, n)[i] != last.id
      {
        assert Gone(front, n)[i] in Gone(front, n);
      }
    }
  }

  lemma LastDiffers(rows: seq<Row>, r: Row)
    requires rows != [] && (forall i, j | 0 <= i < j < |rows| :: rows[i].id != rows[j].id) && r in rows[..|rows| - 1]
    ensures r.id != rows[|rows| - 1].id
  {
    var i :| 0 <= i < |rows| - 1 && rows[..|rows| - 1][i] == r;
    assert rows[i].id != rows[|rows| - 1].id;
  }

  lemma {:induction false} DistinctSet(g: seq<nat>, a: set<nat>)
    requires forall i, j | 0 <= i < j < |g| :: g[i] != g[j]
    requires forall x :: x in g <==> x in a
    ensures multiset(g) == multiset(a)
  {
    if g != [] {
      var k := |g| - 1;
      var x := g[k];
      assert g == g[..k] + [x];
      assert x !in g[..k];
      DistinctSet(g[..k], a - {x});
      assert a == (a - {x}) + {x};
    } else {
      assert a == {};
    }
  }

  lemma RecordsIds(rows: seq<Row>, hold: map<nat, Held>, n: nat, cpu: nat)
    requires Records(rows, hold, n, cpu)
    ensures multiset(Ids(rows)) == multiset(At'(hold, n, cpu))
  {
    forall x ensures x in Ids(rows) <==> x in At'(hold, n, cpu) { InIds(rows, x); }
    DistinctSet(Ids(rows), At'(hold, n, cpu));
  }

  lemma RecordsClean(rows: seq<Row>, hold: map<nat, Held>, n: nat, cpu: nat)
    requires Records(rows, hold, n, cpu)
    ensures multiset(Gone(rows, n)) == multiset(Cleanable(hold, n, cpu))
    ensures Records(Kept(rows, n), hold - Cleanable(hold, n, cpu), n, cpu)
  {
    GoneDistinct(rows, n);
    forall x ensures x in Gone(rows, n) <==> x in Cleanable(hold, n, cpu) { GoneIs(rows, hold, n, cpu, x); }
    DistinctSet(Gone(rows, n), Cleanable(hold, n, cpu));
    KeptRecords(rows, hold, n, cpu);
  }

  lemma GoneIs(rows: seq<Row>, hold: map<nat, Held>, n: nat, cpu: nat, x: nat)
    requires Records(rows, hold, n, cpu)
    ensures x in Gone(rows, n) <==> x in Cleanable(hold, n, cpu)
  {
    GoneIn(rows, n, x);
    InIds(rows, x);
  }

  lemma KeptRecords(rows: seq<Row>, hold: map<nat, Held>, n: nat, cpu: nat)
    requires Records(rows, hold, n, cpu)
    ensures Records(Kept(rows, n), hold - Cleanable(hold, n, cpu), n, cpu)
  {
    KeptDistinct(rows, n);
    var hold' := hold - Cleanable(hold, n, cpu);
    forall r | r in Kept(rows, n)
      ensures r.id in hold' && hold'[r.id] == Held(n, cpu, r.tag, r.died)
    {
      KeptIn(rows, n, r);
    }
    forall id | id in hold' && hold'[id].owner == n && hold'[id].cpu == cpu ensures id in Ids(Kept(rows, n)) {
      InIds(rows, id);
      var r :| r in rows && r.id == id;
      KeptIn(rows, n, r);
      InIds(Kept(rows, n), id);
    }
  }

  // ------------------------------------------------------------------ all lists

  type Lists = map<nat, seq<seq<ListPage>>>

  /** A list of snapshot `n`: written after every older live snapshot. */
  ghost predicate ListOK(pages: seq<ListPage>, n: nat, live: set<nat>) {
    Tagged(pages, n) && forall s, i | s in live && s < n && 0 <= i < |pages| :: s < pages[i].epoch
  }

  ghost predicate ListsOK(lists: Lists, hold: map<nat, Held>, live: set<nat>, cpus: nat) {
    && lists.Keys == live
    && (forall n | n in live :: |lists[n]| == cpus)
    && (forall n, c | n in live && 0 <= c < cpus ::
        ListOK(lists[n][c], n, live) && Records(Rows(lists[n][c]), hold, n, c))
    && (forall id | id in hold :: hold[id].cpu < cpus)
  }

  lemma ListHere(lists: Lists, hold: map<nat, Held>, live: set<nat>, cpus: nat, n: nat, c: nat)
    requires ListsOK(lists, hold, live, cpus) && n in live && c < cpus
    ensures n in lists && |lists[n]| == cpus && ListOK(lists[n][c], n, live) && Records(Rows(lists[n][c]), hold, n, c)
  {
  }

  lemma ListsCreate(lists: Lists, hold: map<nat, Held>, live: set<nat>, cpus: nat, n: nat)
    requires ListsOK(lists, hold, live, cpus) && (forall s | s in live :: s < n)
    requires forall id | id in hold :: hold[id].owner in live
    ensures ListsOK(lists[n := seq(cpus, _ => [ListPage(n, [])])], hold, live + {n}, cpus)
  {
    var lists' := lists[n := seq(cpus, _ => [ListPage(n, [])])];
    forall m, c | m in live + {n} && 0 <= c < cpus
      ensures ListOK(lists'[m][c], m, live + {n}) && Records(Rows(lists'[m][c]), hold, m, c)
    {
      if m == n {
        assert lists'[m][c] == [ListPage(n, [])];
        EmptyList(hold, n, c);
      } else {
        ListHere(lists, hold, live, cpus, m, c);
      }
    }
  }

  lemma EmptyList(hold: map<nat, Held>, n: nat, c: nat)
    requires forall id | id in hold :: hold[id].owner != n
    ensures Records(Rows([ListPage(n, [])]), hold, n, c)
  {
    assert [ListPage(n, [])][..0] == [];
    assert Rows([ListPage(n, [])]) == [];
  }

  lemma AppendedOK(pages: seq<ListPage>, e: ListEntry, n: nat, live: set<nat>)
    requires ListOK(pages, n, live)
    ensures ListOK(Appended(pages, e, n), n, live)
  {
  }

  lemma ListsAppend(lists: Lists, hold: map<nat, Held>, live: set<nat>, cpus: nat, n: nat, c: nat, id: nat, died: nat)
    requires ListsOK(lists, hold, live, cpus) && n in live && c < cpus && id !in hold
    ensures n in lists && |lists[n]| == cpus && lists[n][c] != []
    ensures ListsOK(lists[n := lists[n][c := Appended(lists[n][c], ListEntry(id, died, false), n)]],
                    hold[id := Held(n, c, n, died)], live, cpus)
  {
    hide Records, Appended, Rows;
    ListHere(lists, hold, live, cpus, n, c);
    var e := ListEntry(id, died, false);
    var lists' := lists[n := lists[n][c := Appended(lists[n][c], e, n)]];
    var hold' := hold[id := Held(n, c, n, died)];
    forall m, d | m in live && 0 <= d < cpus
      ensures ListOK(lists'[m][d], m, live) && Records(Rows(lists'[m][d]), hold', m, d)
    {
      ListHere(lists, hold, live, cpus, m, d);
      if m == n && d == c {
        AppendedOK(lists[n][c], e, n, live);
        AppendedRows(lists[n][c], e, n);
        RecordsAppend(Rows(lists[n][c]), hold, n, c, id, died);
      } else {
        RecordsOther(Rows(lists[m][d]), hold, hold', m, d);
      }
    }
  }

  lemma JoinedOK(prev: seq<ListPage>, next: seq<ListPage>, s: nat, n: nat, live: set<nat>)
    requires ListOK(prev, s, live) && ListOK(next, n, live) && s in live && IsFirst(live, s + 1, n)
    ensures ListOK(prev + next, n, live - {s})
  {
    var c := prev + next;
    forall i, j | 0 <= i <= j < |c| ensures c[i].epoch <= c[j].epoch {
      if i < |prev| <= j { assert prev[i].epoch <= prev[|prev| - 1].epoch && s < next[j - |prev|].epoch; }
    }
  }

  /** The lists after `s` has been handed on to `n`. */
  ghost predicate Joined(lists: Lists, lists': Lists, s: nat, n: nat, cpus: nat) {
    && s in lists && n in lists && s != n && |lists[s]| == cpus && |lists[n]| == cpus
    && lists'.Keys == lists.Keys - {s}
    && (forall m | m in lists' && m != n :: lists'[m] == lists[m])
    && n in lists' && |lists'[n]| == cpus && forall c | 0 <= c < cpus :: lists'[n][c] == lists[s][c] + lists[n][c]
  }

  lemma ListsJoin(lists: Lists, lists': Lists, hold: map<nat, Held>, live: set<nat>, cpus: nat, s: nat, n: nat)
    requires ListsOK(lists, hold, live, cpus) && s in live && IsFirst(live, s + 1, n)
    requires Joined(lists, lists', s, n, cpus)
    ensures ListsOK(lists', Moved(hold, s, n), live - {s}, cpus)
  {
    hide Records, Rows, IsFirst, ListOK;
    var hold' := Moved(hold, s, n);
    assert n in live by { assert n in lists'; }
    forall m, d | m in live - {s} && 0 <= d < cpus
      ensures ListOK(lists'[m][d], m, live - {s}) && Records(Rows(lists'[m][d]), hold', m, d)
    {
      ListHere(lists, hold, live, cpus, m, d);
      if m == n {
        ListHere(lists, hold, live, cpus, s, d);
        JoinedOK(lists[s][d], lists[n][d], s, n, live);
        RowsConcat(lists[s][d], lists[n][d]);
        RecordsJoin(Rows(lists[s][d]), Rows(lists[n][d]), hold, s, n, d);
      } else {
        FewerOK(lists[m][d], m, live, s);
        RecordsOther(Rows(lists[m][d]), hold, hold', m, d);
      }
    }
  }

  lemma FewerOK(pages: seq<ListPage>, m: nat, live: set<nat>, s: nat)
    requires ListOK(pages, m, live)
    ensures ListOK(pages, m, live - {s})
  {
  }

  lemma ListsDrop(lists: Lists, hold: map<nat, Held>, live: set<nat>, cpus: nat, s: nat)
    requires ListsOK(lists, hold, live, cpus)
    ensures ListsOK(lists - {s}, hold - OwnedBy(hold, s), live - {s}, cpus)
  {
    hide Records, Rows, ListOK;
    var hold', lists' := hold - OwnedBy(hold, s), lists - {s};
    forall m, d | m in live - {s} && 0 <= d < cpus
      ensures ListOK(lists'[m][d], m, live - {s}) && Records(Rows(lists'[m][d]), hold', m, d)
    {
      ListHere(lists, hold, live, cpus, m, d);
      FewerOK(lists[m][d], m, live, s);
      RecordsOther(Rows(lists[m][d]), hold, hold', m, d);
    }
  }

  lemma CleanedOK(pages: seq<ListPage>, out: seq<ListPage>, n: nat, live: set<nat>)
    requires ListOK(pages, n, live) && SameShape(pages, out)
    ensures ListOK(out, n, live)
  {
  }

  lemma ListsClean(lists: Lists, hold: map<nat, Held>, live: set<nat>, cpus: nat, n: nat, c: nat, out: seq<ListPage>)
    requires ListsOK(lists, hold, live, cpus) && n in live && c < cpus && n in lists && |lists[n]| == cpus
    requires SameShape(lists[n][c], out) && Rows(out) == Kept(Rows(lists[n][c]), n)
    ensures ListsOK(lists[n := lists[n][c := out]], hold - Cleanable(hold, n, c), live, cpus)
    ensures multiset(Gone(Rows(lists[n][c]), n)) == multiset(Cleanable(hold, n, c))
  {
    hide Records, Rows, ListOK, SameShape, Gone, Kept;
    ListHere(lists, hold, live, cpus, n, c);
    RecordsClean(Rows(lists[n][c]), hold, n, c);
    var hold', lists' := hold - Cleanable(hold, n, c), lists[n := lists[n][c := out]];
    forall m, d | m in live && 0 <= d < cpus
      ensures ListOK(lists'[m][d], m, live) && Records(Rows(lists'[m][d]), hold', m, d)
    {
      ListHere(lists, hold, live, cpus, m, d);
      if m == n && d == c {
        CleanedOK(lists[n][c], out, n, live);
      } else {
        RecordsOther(Rows(lists[m][d]), hold, hold', m, d);
      }
    }
  }

  /** Blocks of snapshot `s` in the lists of the first `i` processors. */
  function OwnedUpTo(hold: map<nat, Held>, s: nat, i: nat): set<nat> {
    set id | id in hold && hold[id].owner == s && hold[id].cpu < i
  }

  lemma OwnedNext(hold: map<nat, Held>, s: nat, i: nat)
    ensures multiset(OwnedUpTo(hold, s, i + 1)) == multiset(OwnedUpTo(hold, s, i)) + multiset(At'(hold, s, i))
  {
    var a, b := OwnedUpTo(hold, s, i), At'(hold, s, i);
    assert OwnedUpTo(hold, s, i + 1) == a + b;
    assert a !! b;
  }

  // ------------------------------------------------------------------ the code

  /** How a walk over the lists of a snapshot ends: at the tail; at a page mark taken for an
      entry; or at a snapshot_info that has been freed. */
  datatype Outcome = Finished | MarkRead | InfoGone

  ghost predicate Good(v: State, lists: Lists, cpus: nat) {
    Inv(v) && !v.astray && ListsOK(lists, v.hold, v.live, cpus)
  }

  class SnapshotStore {
    const cpus: nat
    var epoch: nat
    var live: set<nat>
    var lists: Lists
    var target: Option<nat>
    var freed: multiset<nat>
    ghost var pass: Pass
    ghost var hold: map<nat, Held>
    ghost var current: map<nat, nat>
    ghost var past: map<nat, Life>
    ghost var astray: bool

    ghost function Abs(): State
      reads this
    {
      State(epoch, live, hold, target, pass, current, past, freed, astray)
    }

    ghost predicate Valid()
      reads this
    {
      Good(Abs(), lists, cpus)
    }

    constructor (cpus: nat)
      ensures Valid() && Init(Abs()) && this.cpus == cpus && epoch == 0
    {
      this.cpus := cpus;
      epoch, live, lists, target, freed := 0, {}, map[], None, multiset{};
      pass, hold, current, past, astray := Idle, map[], map[], map[], false;
    }

    /** nova_find_target_snapshot_info. */
    method FindTarget(e: nat) returns (r: Option<nat>)
      ensures match r case None => NoneFrom(live, e) case Some(n) => IsFirst(live, e, n)
    {
      var up := From(live, e);
      if up == {} {
        EmptyAbove(live, e);
        return None;
      }
      LeastExists(up);
      var n :| n in up && forall s | s in up :: n <= s;
      LeastAbove(live, e, n);
      return Some(n);
    }

    /** nova_create_snapshot; `ok` tells whether its allocations succeed. */
    method CreateSnapshot(ok: bool)
      requires Valid()
      modifies this
      ensures Valid() && Abs() == Next(old(Abs()), cpus, if ok then Create else CreateFails)
      ensures lists == if ok then old(lists)[old(epoch) := seq(cpus, _ => [ListPage(old(epoch), [])])] else old(lists)
    {
      hide Good, Next, Enabled;
      CreateGood(Abs(), lists, cpus);
      var n := epoch;
      epoch := epoch + 1;
      if ok {
        lists := lists[n := seq(cpus, _ => [ListPage(n, [])])];
        live := live + {n};
      }
    }

    /** A write puts a new block in place. */
    ghost method WriteBlock(id: nat, born: nat)
      requires Valid() && id !in current && id !in past && born <= epoch
      modifies this`current
      ensures Valid() && Abs() == Next(old(Abs()), cpus, Write(id, born))
    {
      hide ListsOK, Inv;
      StepKeeps(Abs(), cpus, Write(id, born));
      current := current[id := born];
    }

    /** nova_append_data_to_snapshot and, where it says so, the freeing by its caller: block
        `id`, written in epoch `born`, was superseded in epoch `died`. */
    method AppendData(id: nat, born: nat, died: nat, cpu: nat) returns (deletable: bool, ghost n: nat)
      requires Valid() && id in current && current[id] == born && born <= died <= epoch && cpu < cpus
      modifies this`lists, this`freed, this`hold, this`current, this`past
      ensures CanRetire(old(Abs()), id, died, n)
      ensures Valid() && Abs() == Next(old(Abs()), cpus, Retire(id, died, cpu, n))
      ensures deletable <==> forall s | s in live :: !Sees(s, Life(born, died))
    {
      hide Good, NoneFrom, IsFirst, Next, Enabled, Appended, Sees;
      ghost var v := Abs();
      var info := FindTarget(born);
      n := if info == None then 0 else info.value;
      RetireGood(v, lists, cpus, id, died, cpu, n);
      NotBoth(live, born, n);
      deletable := born == died || info == None || info.value >= died;
      if deletable {
        freed := freed + multiset{id};
      } else {
        var m := info.value;
        var pages := lists[m][cpu];
        lists := lists[m := lists[m][cpu := Appended(pages, ListEntry(id, died, false), m)]];
        hold := hold[id := Held(m, cpu, m, died)];
      }
      current := current - {id};
      past := past[id := Life(born, died)];
    }

    /** nova_delete_snapshot: hand the lists on to the next snapshot, or free all they retain
        when there is none. That walk fails exactly if one of the lists cannot be walked. */
    method DeleteSnapshot(s: nat) returns (ok: bool, ghost t: Option<Step>)
      requires Valid()
      modifies this`live, this`lists, this`target, this`freed, this`hold
      ensures !ok <==> s in old(live) && NoneFrom(old(live), s + 1) && !AllWalkable(old(lists), s)
      ensures t == None <==> s !in old(live)
      ensures ok ==> Valid()
      ensures ok && t != None && t.value.HandOn? ==> Joined(old(lists), lists, s, t.value.n, cpus)
      ensures ok ==>
              match t
              case None => Abs() == old(Abs())
              case Some(step) =>
                && (step == DeleteLast(s) || (step.HandOn? && step.s == s)) && Enabled(old(Abs()), cpus, step)
                && Abs() == Next(old(Abs()), cpus, step)
    {
      hide Good, Inv, ListsOK, NoneFrom, IsFirst, Next, Enabled, Joined, AllWalkable, Moved, OwnedBy;
      ok, t := true, None;
      var info := FindTarget(s);
      FirstIsIt(live, s, info);
      if info == None || info.value != s { return; }
      ghost var v := Abs();
      GoodParts(v, lists, cpus);
      var next := FindTarget(s + 1);
      if next != None {
        var n := next.value;
        t := Some(HandOn(s, n));
        NotBoth(live, s + 1, n);
        HandOnStep(v, cpus, s, n);
        LinkToNext(s, n);
        target := Some(n);
      } else {
        t := Some(DeleteLast(s));
        DeleteLastStep(v, cpus, s);
        ok := DeleteLists(s);
        if !ok { return; }
      }
      live := live - {s};
      GoodAgain(Abs(), lists, cpus);
    }

    /** nova_link_to_next_snapshot. */
    method LinkToNext(s: nat, n: nat)
      requires ListsOK(lists, hold, live, cpus) && s in live && IsFirst(live, s + 1, n)
      modifies this`lists, this`hold
      ensures ListsOK(lists, hold, live - {s}, cpus) && hold == Moved(old(hold), s, n)
      ensures Joined(old(lists), lists, s, n, cpus)
    {
      hide ListsOK, IsFirst;
      ghost var lists0 := lists;
      FirstLive(lists, hold, live, cpus, s, n);
      var prev, next := lists[s], lists[n];
      var i := 0;
      while i < cpus
        invariant 0 <= i <= cpus && |next| == cpus
        invariant forall c | 0 <= c < i :: next[c] == prev[c] + lists0[n][c]
        invariant forall c | i <= c < cpus :: next[c] == lists0[n][c]
      {
        next := next[i := prev[i] + next[i]];
        i := i + 1;
      }
      lists := lists[n := next] - {s};
      ListsJoin(lists0, lists, hold, live, cpus, s, n);
      hold := Moved(hold, s, n);
    }

    /** nova_delete_snapshot_info with its entries. */
    method DeleteLists(s: nat) returns (ok: bool)
      requires ListsOK(lists, hold, live, cpus) && s in live
      modifies this`lists, this`hold, this`freed
      ensures ok <==> AllWalkable(old(lists), s)
      ensures ok ==> ListsOK(lists, hold, live - {s}, cpus) && hold == old(hold) - OwnedBy(old(hold), s)
      ensures ok ==> freed == old(freed) + multiset(OwnedBy(old(hold), s))
    {
      hide ListsOK, Records, Rows, Ids, Walkable;
      var i := 0;
      ok := true;
      assert OwnedUpTo(hold, s, 0) == {};
      HasLists(lists, hold, live, cpus, s);
      while i < cpus
        invariant 0 <= i <= cpus && lists == old(lists) && hold == old(hold)
        invariant freed == old(freed) + multiset(OwnedUpTo(hold, s, i))
        invariant forall c | 0 <= c < i :: Walkable(lists[s][c])
      {
        ListHere(lists, hold, live, cpus, s, i);
        var gone;
        ok, gone := DeleteEntries(lists[s][i]);
        if !ok { return; }
        RecordsIds(Rows(lists[s][i]), hold, s, i);
        OwnedNext(hold, s, i);
        freed := freed + multiset(gone);
        i := i + 1;
      }
      OwnedAll(lists, hold, live, cpus, s);
      ListsDrop(lists, hold, live, cpus, s);
      lists := lists - {s};
      hold := hold - OwnedBy(hold, s);
    }

    /** nova_clean_snapshot on one list. */
    method CleanOne(n: nat, i: nat) returns (r: Outcome)
      requires Valid() && i < cpus && pass == At(n, i)
      modifies this`lists, this`freed, this`hold, this`pass, this`astray
      ensures r == InfoGone <==> n !in live
      ensures r == MarkRead <==> n in live && n in old(lists) && i < |old(lists)[n]| && !Cleanly(old(lists)[n][i], n)
      ensures r != MarkRead ==> Abs() == Next(old(Abs()), cpus, CleanList)
      ensures r == Finished ==> Valid() && !astray && pass == At(n, i + 1) && OnlyList(old(lists), lists, n, i)
    {
      hide Good, Rows, Kept, Gone, Tagged, Cleanly, SameShape, Next, Enabled, Cleanable, OnlyList, Cleaned, Trap;
      ghost var v := Abs();
      CleanListStep(v, cpus) by { GoodParts(v, lists, cpus); }
      if n !in live {
        astray := true;
        return InfoGone;
      }
      GoodHere(v, lists, cpus, n, i);
      var ok, out, gone := NovaSnapshotLists.CleanList(lists[n][i], n);
      if !ok { return MarkRead; }
      CleanGood(v, lists, cpus, n, i, out);
      lists := lists[n := lists[n][i := out]];
      freed := freed + multiset(gone);
      hold := hold - Cleanable(hold, n, i);
      pass := At(n, i + 1);
      return Finished;
    }

    /** nova_clean_snapshot. */
    method CleanSnapshot() returns (r: Outcome)
      requires Valid() && pass == Idle
      modifies this`lists, this`freed, this`hold, this`pass, this`target, this`astray
      ensures r == InfoGone <==> old(target) != None && old(target).value !in live && cpus > 0
      ensures r == MarkRead <==>
                old(target) != None && old(target).value in live && !AllCleanly(old(lists), old(target).value)
      ensures r == Finished ==>
                Valid() && Abs()
                == if old(target) == None then old(Abs()) else Swept(Next(old(Abs()), cpus, CleanStart), cpus)
    {
      hide Good, Inv, ListsOK, Swept, Cleanable, Cleanly, Next, Enabled, Sweeping, OnlyList, AllCleanly;
      if target == None { return Finished; }
      CleanStartStep(Abs(), lists, cpus);
      ghost var v := Next(Abs(), cpus, CleanStart);
      GoodParts(Abs(), lists, cpus);
      var n := target.value;
      pass := At(n, 0);
      if n in live { SweepBegins(Abs(), lists, cpus, n); }
      for i := 0 to cpus
        invariant Valid() && !astray && pass == At(n, i) && target == Some(n) && live == old(live)
        invariant i > 0 ==> n in live
        invariant n in live ==> Sweeping(old(lists), lists, n, i, cpus)
        invariant Swept(Abs(), cpus) == Swept(v, cpus)
      {
        SweptHere(Abs(), cpus);
        CleanNext(Abs(), lists, cpus);
        if n in live { SweepOne(old(lists), lists, n, i, cpus); }
        ghost var lists1 := lists;
        r := CleanOne(n, i);
        if r != Finished { return; }
        SweepNext(old(lists), lists1, lists, n, i, cpus);
      }
      if n in live { SweepEnds(old(lists), lists, n, cpus); }
      SweptHere(Abs(), cpus);
      CleanEndStep(Abs(), lists, cpus);
      target := None;
      pass := Idle;
      return Finished;
    }
  }

  // ------------------------------------------------- steps on state and lists

  lemma GoodParts(v: State, lists: Lists, cpus: nat)
    requires Good(v, lists, cpus)
    ensures Inv(v) && !v.astray && ListsOK(lists, v.hold, v.live, cpus)
  {
  }

  lemma GoodAgain(v: State, lists: Lists, cpus: nat)
    requires Inv(v) && !v.astray && ListsOK(lists, v.hold, v.live, cpus)
    ensures Good(v, lists, cpus)
  {
  }

  lemma GoodHere(v: State, lists: Lists, cpus: nat, n: nat, i: nat)
    requires Good(v, lists, cpus) && n in v.live && i < cpus
    ensures n in lists && |lists[n]| == cpus && Tagged(lists[n][i], n)
  {
    ListHere(lists, v.hold, v.live, cpus, n, i);
  }

  lemma CreateGood(v: State, lists: Lists, cpus: nat)
    requires Good(v, lists, cpus)
    ensures Enabled(v, cpus, Create) && Enabled(v, cpus, CreateFails)
    ensures var w := v.(live := v.live + {v.epoch}, epoch := v.epoch + 1);
            Next(v, cpus, Create) == w && Good(w, lists[v.epoch := seq(cpus, _ => [ListPage(v.epoch, [])])], cpus)
    ensures var w := v.(epoch := v.epoch + 1); Next(v, cpus, CreateFails) == w && Good(w, lists, cpus)
  {
    hide ListsOK;
    StepKeeps(v, cpus, Create);
    StepKeeps(v, cpus, CreateFails);
    OwnersLive(v);
    ListsCreate(lists, v.hold, v.live, cpus, v.epoch);
  }

  lemma RetireGood(v: State, lists: Lists, cpus: nat, id: nat, died: nat, cpu: nat, n: nat)
    requires Good(v, lists, cpus) && CanRetire(v, id, died, n) && cpu < cpus
    ensures var l := Life(v.current[id], died);
            var w := v.(current := v.current - {id}, past := v.past[id := l]);
            && Enabled(v, cpus, Retire(id, died, cpu, n))
            && (Deletable(v.live, l, n) <==> forall s | s in v.live :: !Sees(s, l))
            && if Deletable(v.live, l, n) then
                 var u := w.(freed := v.freed + multiset{id});
                 u == Next(v, cpus, Retire(id, died, cpu, n)) && Good(u, lists, cpus)
               else
                 var u := w.(hold := v.hold[id := Held(n, cpu, n, died)]);
                 && u == Next(v, cpus, Retire(id, died, cpu, n)) && n in lists && cpu < |lists[n]|
                     && lists[n][cpu] != []
                 && Good(u, lists[n := lists[n][cpu := Appended(lists[n][cpu], ListEntry(id, died, false), n)]], cpus)
  {
    hide ListsOK, Inv, IsFirst, NoneFrom, Appended;
    RetireStep(v, cpus, id, died, cpu, n);
    RetireFacts(v, id);
    DeletableIff(v.live, Life(v.current[id], died), n);
    if !Deletable(v.live, Life(v.current[id], died), n) {
      FoundLive(v.live, v.current[id], n);
      ListsAppend(lists, v.hold, v.live, cpus, n, cpu, id, died);
    }
  }

  lemma FoundLive(live: set<nat>, e: nat, n: nat)
    requires (NoneFrom(live, e) || IsFirst(live, e, n)) && !NoneFrom(live, e)
    ensures n in live
  {
  }

  lemma RetireStep(v: State, cpus: nat, id: nat, died: nat, cpu: nat, n: nat)
    requires Inv(v) && !v.astray && CanRetire(v, id, died, n) && cpu < cpus
    ensures var t := Retire(id, died, cpu, n);
            Enabled(v, cpus, t) && Inv(Next(v, cpus, t)) && Next(v, cpus, t) == Retired(v, id, died, cpu, n)
  {
    StepKeeps(v, cpus, Retire(id, died, cpu, n));
  }

  lemma HandOnStep(v: State, cpus: nat, s: nat, n: nat)
    requires Inv(v) && !v.astray && s in v.live && IsFirst(v.live, s + 1, n)
    ensures Enabled(v, cpus, HandOn(s, n)) && Inv(Next(v, cpus, HandOn(s, n)))
    ensures Next(v, cpus, HandOn(s, n)) == v.(live := v.live - {s}, hold := Moved(v.hold, s, n), target := Some(n))
  {
    StepKeeps(v, cpus, HandOn(s, n));
  }

  lemma DeleteLastStep(v: State, cpus: nat, s: nat)
    requires Inv(v) && !v.astray && s in v.live && NoneFrom(v.live, s + 1)
    ensures Enabled(v, cpus, DeleteLast(s)) && Inv(Next(v, cpus, DeleteLast(s)))
    ensures Next(v, cpus, DeleteLast(s)) ==
              v.(live := v.live - {s}, hold := v.hold - OwnedBy(v.hold, s),
                  freed := v.freed + multiset(OwnedBy(v.hold, s)))
  {
    StepKeeps(v, cpus, DeleteLast(s));
  }

  lemma CleanStartStep(v: State, lists: Lists, cpus: nat)
    requires Good(v, lists, cpus) && v.pass == Idle && v.target != None
    ensures var w := v.(pass := At(v.target.value, 0));
            Enabled(v, cpus, CleanStart) && Next(v, cpus, CleanStart) == w && Good(w, lists, cpus)
  {
    StepKeeps(v, cpus, CleanStart);
  }

  lemma CleanListStep(v: State, cpus: nat)
    requires Inv(v) && !v.astray && v.pass != Idle && v.pass.cpu < cpus
    ensures Enabled(v, cpus, CleanList) && Inv(Next(v, cpus, CleanList))
    ensures var n, i := v.pass.target, v.pass.cpu;
            Next(v, cpus, CleanList) ==
              if n !in v.live then v.(astray := true)
              else v.(pass := At(n, i + 1), hold := v.hold - Cleanable(v.hold, n, i),
                  freed := v.freed + multiset(Cleanable(v.hold, n, i)))
  {
    StepKeeps(v, cpus, CleanList);
  }

  lemma CleanNext(v: State, lists: Lists, cpus: nat)
    requires Good(v, lists, cpus) && v.pass != Idle && v.pass.cpu < cpus
    ensures Enabled(v, cpus, CleanList)
  {
  }

  lemma CleanGood(v: State, lists: Lists, cpus: nat, n: nat, i: nat, out: seq<ListPage>)
    requires Good(v, lists, cpus) && v.pass == At(n, i) && i < cpus && n in v.live && n in lists && |lists[n]| == cpus
    requires SameShape(lists[n][i], out) && Rows(out) == Kept(Rows(lists[n][i]), n)
    ensures multiset(Gone(Rows(lists[n][i]), n)) == multiset(Cleanable(v.hold, n, i))
    ensures OnlyList(lists, lists[n := lists[n][i := out]], n, i)
    ensures var w := v.(pass := At(n, i + 1), hold := v.hold - Cleanable(v.hold, n, i),
              freed := v.freed + multiset(Cleanable(v.hold, n, i)));
            Good(w, lists[n := lists[n][i := out]], cpus)
  {
    hide Inv, ListsOK, SameShape, Rows, Kept, Gone, Cleanable;
    CleanListStep(v, cpus);
    ListsClean(lists, v.hold, v.live, cpus, n, i, out);
  }

  lemma CleanEndStep(v: State, lists: Lists, cpus: nat)
    requires Good(v, lists, cpus) && v.pass != Idle && v.pass.cpu == cpus
    ensures var w := v.(pass := Idle, target := None);
            Enabled(v, cpus, CleanEnd) && Next(v, cpus, CleanEnd) == w && Good(w, lists, cpus)
  {
    StepKeeps(v, cpus, CleanEnd);
  }

  /** The lists of `n` before list `i` are cleaned and could be walked; the others are as before. */
  ghost predicate Sweeping(lists0: Lists, lists: Lists, n: nat, i: nat, cpus: nat) {
    && n in lists0 && n in lists && |lists0[n]| == |lists[n]| == cpus && i <= cpus
    && (forall c | i <= c < cpus :: lists[n][c] == lists0[n][c])
    && (forall c | 0 <= c < i :: Cleanly(lists0[n][c], n))
  }

  lemma SweepBegins(v: State, lists: Lists, cpus: nat, n: nat)
    requires Good(v, lists, cpus) && n in v.live
    ensures Sweeping(lists, lists, n, 0, cpus)
  {
  }

  lemma SweepOne(lists0: Lists, lists: Lists, n: nat, i: nat, cpus: nat)
    requires Sweeping(lists0, lists, n, i, cpus) && i < cpus
    ensures n in lists && i < |lists[n]| && (!Cleanly(lists[n][i], n) ==> !AllCleanly(lists0, n))
  {
    assert lists[n][i] == lists0[n][i];
  }

  lemma SweepNext(lists0: Lists, lists: Lists, lists': Lists, n: nat, i: nat, cpus: nat)
    requires Sweeping(lists0, lists, n, i, cpus) && i < cpus && Cleanly(lists[n][i], n) && OnlyList(lists, lists', n, i)
    ensures Sweeping(lists0, lists', n, i + 1, cpus)
  {
    hide Cleanly;
  }

  lemma SweepEnds(lists0: Lists, lists: Lists, n: nat, cpus: nat)
    requires Sweeping(lists0, lists, n, cpus, cpus)
    ensures AllCleanly(lists0, n)
  {
  }

  /** At most list `i` of snapshot `n` differs. */
  ghost predicate OnlyList(lists: Lists, lists': Lists, n: nat, i: nat) {
    && n in lists && n in lists' && |lists'[n]| == |lists[n]|
    && forall c | 0 <= c < |lists[n]| && c != i :: lists'[n][c] == lists[n][c]
  }

  ghost predicate AllCleanly(lists: Lists, n: nat) {
    n in lists && forall c | 0 <= c < |lists[n]| :: Cleanly(lists[n][c], n)
  }

  lemma HasLists(lists: Lists, hold: map<nat, Held>, live: set<nat>, cpus: nat, n: nat)
    requires ListsOK(lists, hold, live, cpus) && n in live
    ensures n in lists && |lists[n]| == cpus
  {
  }

  ghost predicate ThreeIdle(lists: Lists, cpus: nat) {
    forall n | 0 <= n < 3 :: n in lists && lists[n] == seq(cpus, _ => [ListPage(n, [])])
  }

  method ThreeSnapshots(cpus: nat) returns (st: SnapshotStore)
    ensures fresh(st) && st.Valid() && st.cpus == cpus && st.pass == Idle && st.live == {0, 1, 2}
    ensures ThreeIdle(st.lists, cpus)
  {
    hide Good, Next, Enabled, Init;
    st := new SnapshotStore(cpus);
    InitIs(st.Abs());
    CreateIs(st.Abs(), cpus);
    st.CreateSnapshot(true);
    CreateIs(st.Abs(), cpus);
    st.CreateSnapshot(true);
    CreateIs(st.Abs(), cpus);
    st.CreateSnapshot(true);
  }

  /** Three snapshots that no block outlived: once the first two are deleted, the list of the
      third has an empty page in the middle, and the cleaner takes its mark for an entry. */
  method ThreeIdleSnapshots(cpus: nat) returns (r: Outcome)
    requires cpus > 0
    ensures r == MarkRead
  {
    hide Good, Next, Enabled, Joined, IsFirst, NoneFrom, AllCleanly, AllWalkable, ThreeIdle;
    var st := ThreeSnapshots(cpus);
    ghost var v, l0 := st.Abs(), st.lists;
    ghost var t;
    var ok;
    FirstHere(st.live, 0, 1);
    ok, t := st.DeleteSnapshot(0);
    HandOnIs(v, cpus, t, 0, 1);
    ghost var w, l1 := st.Abs(), st.lists;
    FirstHere(st.live, 1, 2);
    ok, t := st.DeleteSnapshot(1);
    HandOnIs(w, cpus, t, 1, 2);
    IdleJoin(l0, l1, st.lists, cpus);
    r := st.CleanSnapshot();
  }

  lemma InitIs(v: State)
    requires Init(v)
    ensures v.live == {} && v.target == None && v.pass == Idle && !v.astray
  {
  }

  lemma CreateIs(v: State, cpus: nat)
    requires !v.astray
    ensures Enabled(v, cpus, Create) && Next(v, cpus, Create) == v.(live := v.live + {v.epoch}, epoch := v.epoch + 1)
  {
  }

  lemma FirstHere(live: set<nat>, s: nat, n: nat)
    requires s in live && n in live && s < n && forall x | x in live :: x <= s || n <= x
    ensures IsFirst(live, s + 1, n) && !NoneFrom(live, s + 1)
  {
  }

  lemma HandOnIs(v: State, cpus: nat, t: Option<Step>, s: nat, n: nat)
    requires IsFirst(v.live, s + 1, n) && t.Some? && Enabled(v, cpus, t.value)
    requires t.value == DeleteLast(s) || (t.value.HandOn? && t.value.s == s)
    ensures t.value == HandOn(s, n)
    ensures var w := Next(v, cpus, t.value); w.live == v.live - {s} && w.target == Some(n) && w.pass == v.pass
  {
  }

  lemma IdleJoin(l0: Lists, l1: Lists, l2: Lists, cpus: nat)
    requires cpus > 0 && ThreeIdle(l0, cpus)
    requires Joined(l0, l1, 0, 1, cpus) && Joined(l1, l2, 1, 2, cpus)
    ensures !AllCleanly(l2, 2)
  {
    assert l1[1][0] == [ListPage(0, [])] + [ListPage(1, [])] && l1[2] == l0[2];
    assert l2[2][0] == [ListPage(0, [])] + [ListPage(1, [])] + [ListPage(2, [])];
    assert l2[2][0][1].ents == [];
    assert !Cleanly(l2[2][0], 2);
  }

  ghost predicate AllWalkable(lists: Lists, n: nat) {
    n in lists && forall c | 0 <= c < |lists[n]| :: Walkable(lists[n][c])
  }

  /** The rest of a pass of the cleaner. */
  ghost function Swept(v: State, cpus: nat): State
    requires !v.astray && v.pass != Idle && v.pass.cpu <= cpus
    decreases cpus - v.pass.cpu
  {
    if v.pass.cpu == cpus then Next(v, cpus, CleanEnd)
    else if v.pass.target !in v.live then Next(v, cpus, CleanList)
    else Swept(Next(v, cpus, CleanList), cpus)
  }

  lemma SweptHere(v: State, cpus: nat)
    requires !v.astray && v.pass != Idle && v.pass.cpu <= cpus
    ensures v.pass.cpu == cpus ==> Swept(v, cpus) == Next(v, cpus, CleanEnd)
    ensures v.pass.cpu < cpus && v.pass.target in v.live ==> Swept(v, cpus) == Swept(Next(v, cpus, CleanList), cpus)
  {
  }

  lemma FirstIsIt(live: set<nat>, s: nat, r: Option<nat>)
    requires match r case None => NoneFrom(live, s) case Some(n) => IsFirst(live, s, n)
    ensures s in live <==> r == Some(s)
  {
  }

  lemma FirstLive(lists: Lists, hold: map<nat, Held>, live: set<nat>, cpus: nat, s: nat, n: nat)
    requires ListsOK(lists, hold, live, cpus) && s in live && IsFirst(live, s + 1, n)
    ensures n in live && n != s && s in lists && n in lists && |lists[s]| == cpus && |lists[n]| == cpus
    ensures lists.Keys == live
  {
  }

  lemma OwnedAll(lists: Lists, hold: map<nat, Held>, live: set<nat>, cpus: nat, s: nat)
    requires ListsOK(lists, hold, live, cpus)
    ensures OwnedUpTo(hold, s, cpus) == OwnedBy(hold, s)
  {
  }

  lemma RetireFacts(v: State, id: nat)
    requires Inv(v) && id in v.current
    ensures id !in v.hold && id !in v.past
  {
  }

  lemma NotBoth(live: set<nat>, e: nat, n: nat)
    ensures !(NoneFrom(live, e) && IsFirst(live, e, n))
  {
  }

  function From(live: set<nat>, e: nat): set<nat> { set s | s in live && e <= s }

  lemma EmptyAbove(live: set<nat>, e: nat)
    requires From(live, e) == {}
    ensures NoneFrom(live, e)
  {
    forall s | s in live ensures s < e {
      assert s !in From(live, e);
    }
  }

  lemma LeastAbove(live: set<nat>, e: nat, n: nat)
    requires n in From(live, e) && forall s | s in From(live, e) :: n <= s
    ensures IsFirst(live, e, n)
  {
    assert forall s | s in live && e <= s :: s in From(live, e);
  }

  lemma LeastExists(up: set<nat>)
    requires up != {}
    ensures exists n :: n in up && forall s | s in up :: n <= s
  {
    var n := Least(up);
  }

  lemma OwnersLive(v: State)
    requires Inv(v)
    ensures (forall s | s in v.live :: s < v.epoch) && forall id | id in v.hold :: v.hold[id].owner in v.live
  {
    forall id | id in v.hold ensures v.hold[id].owner in v.live { assert HeldOK(v.live, v.past[id], v.hold[id]); }
  }
}
