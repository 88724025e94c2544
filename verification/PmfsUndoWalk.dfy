/** The backward recovery walk of the PMFS undo journal (pmfs/journal.c), on the
    window of log cells between the journal's head and tail.

    A cell is what the walk can see of one 64-byte log slot: `live` is the outcome
    of the generation test, `edge` says that the slot is slot 0 of the ring (the
    walk of one transaction never crosses it), `start` and `fin` are the LE_START
    and LE_COMMIT/LE_ABORT flags, and `saved` is the saved data for `addr`. */
module PmfsUndoWalk {
  type Byte = nat

  datatype Cell = Cell(edge: bool, live: bool, start: bool, fin: bool, addr: nat, saved: seq<Byte>)

  predicate Mark(c: Cell) { c.live && (c.start || c.fin) }

  predicate Covers(c: Cell, a: nat) { c.live && c.addr <= a < c.addr + |c.saved| }

  /** Every live cell saves bytes that exist. */
  ghost predicate Fits(log: seq<Cell>, size: nat) {
    forall p | 0 <= p < |log| && log[p].live :: log[p].addr + |log[p].saved| <= size
  }

  /** pmfs_undo_logentry, guarded by the generation test of pmfs_undo_transaction. */
  function Undo(c: Cell, data: seq<Byte>): (r: seq<Byte>)
    requires c.live ==> c.addr + |c.saved| <= |data|
    ensures |r| == |data|
    ensures forall a | 0 <= a < |data| :: r[a] == if Covers(c, a) then c.saved[a - c.addr] else data[a]
  {
    if c.live && |c.saved| > 0 then data[..c.addr] + c.saved + data[c.addr + |c.saved|..] else data
  }

  // ---------------------------------------------------------------- the walk

  /** Where the inner loop of pmfs_recover_transaction, entered at `j`, stops: at a
      live LE_START, at the start of the ring or at the head, or just above the
      commit or abort record of the transaction below. */
  function GroupLow(log: seq<Cell>, lo: nat, j: nat): (b: nat)
    requires lo <= j < |log|
    ensures lo <= b <= j
  {
    if log[j].live && log[j].start then j
    else if log[j].edge || j == lo then j
    else if log[j - 1].live && log[j - 1].fin then j
    else GroupLow(log, lo, j - 1)
  }

  /** The live cells of `[b, i)`, highest first: the order of pmfs_undo_transaction. */
  function Down(log: seq<Cell>, b: nat, i: nat): (r: seq<nat>)
    requires b <= i <= |log|
    ensures forall k | 0 <= k < |r| :: b <= r[k] < i
    decreases i
  {
    if i == b then [] else (if log[i - 1].live then [i - 1] else []) + Down(log, b, i - 1)
  }

  /** The cells undone by pmfs_recover_undo_journal when its tail has come down to
      `i`, in the order in which it undoes them. */
  function Plan(log: seq<Cell>, lo: nat, i: nat): (r: seq<nat>)
    requires lo <= i <= |log|
    ensures forall k | 0 <= k < |r| :: lo <= r[k] < i
    decreases i
  {
    if i == lo then []
    else if !log[i - 1].live then Plan(log, lo, i - 1)
    else
      var b := GroupLow(log, lo, i - 1);
      (if log[b].live && log[b].start && !log[i - 1].fin then Down(log, b, i) else []) + Plan(log, lo, b)
  }

  function Apply(log: seq<Cell>, plan: seq<nat>, data: seq<Byte>): (r: seq<Byte>)
    requires Fits(log, |data|) && forall i | 0 <= i < |plan| :: plan[i] < |log|
    ensures |r| == |data|
  {
    if plan == [] then data else Apply(log, plan[1..], Undo(log[plan[0]], data))
  }

  /** The data after the whole walk over the window `[lo, hi)`. */
  function Recover(log: seq<Cell>, lo: nat, hi: nat, data: seq<Byte>): (r: seq<Byte>)
    requires lo <= hi <= |log| && Fits(log, |data|)
    ensures |r| == |data|
  {
    Apply(log, Plan(log, lo, hi), data)
  }

  // ------------------------------------------- which cells the walk undoes

  /** The nearest mark at or below `p`, within its lap, is an LE_START alone. */
  ghost predicate Under(log: seq<Cell>, lo: nat, p: nat)
    requires p < |log|
  {
    exists s :: lo <= s <= p && Opens(log, s, p)
  }

  ghost predicate Opens(log: seq<Cell>, s: nat, p: nat)
    requires s <= p < |log|
  {
    log[s].live && log[s].start && !log[s].fin && forall q | s < q <= p :: !Mark(log[q]) && !log[q].edge
  }

  /** The nearest mark above `p`, within its lap, is a commit or abort record. */
  ghost predicate Capped(log: seq<Cell>, p: nat, hi: nat)
    requires p < hi <= |log|
  {
    exists e :: p < e < hi && Caps(log, p, e)
  }

  ghost predicate Caps(log: seq<Cell>, p: nat, e: nat)
    requires p < e < |log|
  {
    log[e].live && log[e].fin && !log[e].start && !log[e].edge
    && forall q | p < q < e :: !Mark(log[q]) && !log[q].edge
  }

  ghost predicate Undone(log: seq<Cell>, lo: nat, hi: nat, p: nat)
    requires hi <= |log|
  {
    lo <= p < hi && log[p].live && !log[p].fin && Under(log, lo, p) && !Capped(log, p, hi)
  }

  lemma {:induction false} GroupLowStops(log: seq<Cell>, lo: nat, j: nat)
    requires lo <= j < |log|
    ensures var b := GroupLow(log, lo, j);
            && (forall q | b < q <= j :: !log[q].edge && !(log[q].live && log[q].start))
            && (forall q | b <= q < j :: !(log[q].live && log[q].fin))
            && ((log[b].live && log[b].start)
                || log[b].edge || b == lo || (log[b - 1].live && log[b - 1].fin))
  {
    if log[j].live && log[j].start {
    } else if log[j].edge || j == lo {
    } else if log[j - 1].live && log[j - 1].fin {
    } else {
      GroupLowStops(log, lo, j - 1);
    }
  }

  lemma {:induction false} DownIs(log: seq<Cell>, b: nat, i: nat)
    requires b <= i <= |log|
    ensures forall p :: p in Down(log, b, i) <==> b <= p < i && log[p].live
    ensures Descending(Down(log, b, i))
    decreases i
  {
    if i > b {
      DownIs(log, b, i - 1);
      var d := Down(log, b, i - 1);
      assert forall x | 0 <= x < |d| :: d[x] in d;
    }
  }

  /** Cells of the group `[b, i)` entered at a live cell `i - 1`. */
  lemma GroupUndone(log: seq<Cell>, lo: nat, i: nat, p: nat)
    requires lo < i <= |log| && log[i - 1].live && GroupLow(log, lo, i - 1) <= p < i
    ensures var b := GroupLow(log, lo, i - 1);
            Undone(log, lo, i, p) <==> log[p].live && log[b].live && log[b].start && !log[i - 1].fin
  {
    GroupLowStops(log, lo, i - 1);
    var b := GroupLow(log, lo, i - 1);
    if log[b].live && log[b].start {
      if !log[i - 1].fin {
        assert Opens(log, b, p);
      } else if p < i - 1 {
        assert Caps(log, p, i - 1);
      }
    }
  }

  /** Cells below the group are judged as if the window ended at `b`. */
  lemma BelowGroup(log: seq<Cell>, lo: nat, i: nat, p: nat)
    requires lo < i <= |log| && log[i - 1].live && lo <= p < GroupLow(log, lo, i - 1)
    ensures Undone(log, lo, i, p) <==> Undone(log, lo, GroupLow(log, lo, i - 1), p)
  {
    GroupLowStops(log, lo, i - 1);
    var b := GroupLow(log, lo, i - 1);
    if log[p].live && !log[p].fin {
      if Capped(log, p, i) {
        var e :| p < e < i && Caps(log, p, e);
        assert e < b;
        assert Capped(log, p, b);
      }
    }
  }

  lemma NotLiveTop(log: seq<Cell>, lo: nat, i: nat, p: nat)
    requires lo < i <= |log| && !log[i - 1].live && lo <= p < i
    ensures Undone(log, lo, i, p) <==> p < i - 1 && Undone(log, lo, i - 1, p)
  {
    if p < i - 1 && Capped(log, p, i) {
      var e :| p < e < i && Caps(log, p, e);
      assert e < i - 1;
    }
  }

  /** The group found at `i` (`here`) is undone before everything below it. */
  lemma PlanStep(log: seq<Cell>, lo: nat, i: nat) returns (b: nat, here: seq<nat>)
    requires lo < i <= |log| && log[i - 1].live
    ensures b == GroupLow(log, lo, i - 1) && Plan(log, lo, i) == here + Plan(log, lo, b)
    ensures forall p: nat | lo <= p < i :: p in here <==> b <= p && Undone(log, lo, i, p)
    ensures forall p | p in here :: b <= p < i
    ensures Descending(here)
  {
    b := GroupLow(log, lo, i - 1);
    here := if log[b].live && log[b].start && !log[i - 1].fin then Down(log, b, i) else [];
    DownIs(log, b, i);
    forall p: nat | b <= p < i ensures p in here <==> Undone(log, lo, i, p) {
      GroupUndone(log, lo, i, p);
    }
  }

  ghost predicate Descending(s: seq<nat>) {
    forall x, y | 0 <= x < y < |s| :: s[x] > s[y]
  }

  /** The walk undoes exactly the cells whose nearest mark below is an LE_START and
      whose nearest mark above is not a commit or abort record. */
  lemma {:induction false} PlanIsUndone(log: seq<Cell>, lo: nat, i: nat)
    requires lo <= i <= |log|
    ensures forall p: nat :: p in Plan(log, lo, i) <==> Undone(log, lo, i, p)
    decreases i
  {
    if i == lo {
    } else if !log[i - 1].live {
      PlanIsUndone(log, lo, i - 1);
      forall p: nat ensures p in Plan(log, lo, i) <==> Undone(log, lo, i, p) {
        if lo <= p < i { NotLiveTop(log, lo, i, p); }
      }
    } else {
      var b, here := PlanStep(log, lo, i);
      PlanIsUndone(log, lo, b);
      forall p: nat ensures p in Plan(log, lo, i) <==> Undone(log, lo, i, p) {
        assert p in Plan(log, lo, i) <==> p in here || p in Plan(log, lo, b);
        if lo <= p < b { BelowGroup(log, lo, i, p); }
      }
    }
  }

  /** ... highest first, so that the oldest saved value of a byte is written last. */
  lemma {:induction false} PlanDescends(log: seq<Cell>, lo: nat, i: nat)
    requires lo <= i <= |log|
    ensures Descending(Plan(log, lo, i))
    decreases i
  {
    if i == lo {
    } else if !log[i - 1].live {
      PlanDescends(log, lo, i - 1);
    } else {
      var b, here := PlanStep(log, lo, i);
      PlanDescends(log, lo, b);
      PlanIsUndone(log, lo, b);
      assert forall x | 0 <= x < |here| :: here[x] in here;
    }
  }

  // -------------------------------------------- what the data looks like after

  lemma {:induction false} ApplyElsewhere(log: seq<Cell>, plan: seq<nat>, data: seq<Byte>, a: nat)
    requires Fits(log, |data|) && (forall i | 0 <= i < |plan| :: plan[i] < |log|) && a < |data|
    requires forall i | 0 <= i < |plan| :: !Covers(log[plan[i]], a)
    ensures Apply(log, plan, data)[a] == data[a]
    decreases |plan|
  {
    if plan != [] {
      assert !Covers(log[plan[0]], a);
      ApplyElsewhere(log, plan[1..], Undo(log[plan[0]], data), a);
    }
  }

  /** The last cell of a plan that covers a byte decides it. */
  lemma {:induction false} ApplyLast(log: seq<Cell>, plan: seq<nat>, data: seq<Byte>, a: nat, i: nat)
    requires Fits(log, |data|) && (forall i | 0 <= i < |plan| :: plan[i] < |log|) && a < |data|
    requires i < |plan| && Covers(log[plan[i]], a)
    requires forall j | i < j < |plan| :: !Covers(log[plan[j]], a)
    ensures Apply(log, plan, data)[a] == log[plan[i]].saved[a - log[plan[i]].addr]
    decreases |plan|
  {
    var d := Undo(log[plan[0]], data);
    if i == 0 {
      ApplyElsewhere(log, plan[1..], d, a);
    } else {
      ApplyLast(log, plan[1..], d, a, i - 1);
    }
  }

  /** `p` is the lowest undone cell that covers byte `a`. */
  ghost predicate Lowest(log: seq<Cell>, lo: nat, hi: nat, p: nat, a: nat)
    requires hi <= |log|
  {
    Undone(log, lo, hi, p) && Covers(log[p], a)
    && forall q | lo <= q < p && Undone(log, lo, hi, q) :: !Covers(log[q], a)
  }

  ghost predicate Untouched(log: seq<Cell>, lo: nat, hi: nat, a: nat)
    requires hi <= |log|
  {
    forall p | lo <= p < hi && Undone(log, lo, hi, p) :: !Covers(log[p], a)
  }

  /** The condition on a crash image under which recovery yields `want`. */
  ghost predicate Restores(log: seq<Cell>, lo: nat, hi: nat, data: seq<Byte>, want: seq<Byte>)
    requires hi <= |log|
  {
    |data| == |want|
    && (forall a | 0 <= a < |data| && Untouched(log, lo, hi, a) :: data[a] == want[a])
    && (forall a, p | 0 <= a < |data| && lo <= p < hi && Lowest(log, lo, hi, p, a) ::
          log[p].saved[a - log[p].addr] == want[a])
  }

  lemma {:induction false} LowestExists(log: seq<Cell>, lo: nat, hi: nat, p: nat, a: nat) returns (q: nat)
    requires hi <= |log| && Undone(log, lo, hi, p) && Covers(log[p], a)
    ensures lo <= q <= p && Lowest(log, lo, hi, q, a)
    decreases p
  {
    if Lowest(log, lo, hi, p, a) {
      q := p;
    } else {
      var r :| lo <= r < p && Undone(log, lo, hi, r) && Covers(log[r], a);
      q := LowestExists(log, lo, hi, r, a);
    }
  }

  /** A byte that no undone cell covers is left alone. */
  lemma RecoverElsewhere(log: seq<Cell>, lo: nat, hi: nat, data: seq<Byte>, a: nat)
    requires lo <= hi <= |log| && Fits(log, |data|) && a < |data| && Untouched(log, lo, hi, a)
    ensures Recover(log, lo, hi, data)[a] == data[a]
  {
    PlanIsUndone(log, lo, hi);
    var plan := Plan(log, lo, hi);
    forall i | 0 <= i < |plan| ensures !Covers(log[plan[i]], a) { assert plan[i] in plan; }
    ApplyElsewhere(log, plan, data, a);
  }

  /** The lowest undone cell that covers a byte decides it. */
  lemma RecoverLowest(log: seq<Cell>, lo: nat, hi: nat, data: seq<Byte>, a: nat, p: nat)
    requires lo <= hi <= |log| && Fits(log, |data|) && a < |data| && Lowest(log, lo, hi, p, a)
    ensures Recover(log, lo, hi, data)[a] == log[p].saved[a - log[p].addr]
  {
    hide Undone, Plan, Apply;
    PlanIsUndone(log, lo, hi);
    PlanDescends(log, lo, hi);
    var plan := Plan(log, lo, hi);
    assert p in plan;
    var i :| 0 <= i < |plan| && plan[i] == p;
    forall j | i < j < |plan| ensures !Covers(log[plan[j]], a) { assert plan[j] in plan; }
    ApplyLast(log, plan, data, a, i);
  }

  /** Recovery yields `want` exactly from the images that `Restores` describes. */
  lemma RecoverIff(log: seq<Cell>, lo: nat, hi: nat, data: seq<Byte>, want: seq<Byte>)
    requires lo <= hi <= |log| && Fits(log, |data|)
    ensures Recover(log, lo, hi, data) == want <==> Restores(log, lo, hi, data, want)
  {
    var r := Recover(log, lo, hi, data);
    forall a | 0 <= a < |data| && Untouched(log, lo, hi, a) ensures r[a] == data[a] {
      RecoverElsewhere(log, lo, hi, data, a);
    }
    forall a, p | 0 <= a < |data| && lo <= p < hi && Lowest(log, lo, hi, p, a)
      ensures r[a] == log[p].saved[a - log[p].addr]
    {
      RecoverLowest(log, lo, hi, data, a, p);
    }
    if Restores(log, lo, hi, data, want) {
      forall a | 0 <= a < |data| ensures r[a] == want[a] {
        if !Untouched(log, lo, hi, a) {
          var p :| lo <= p < hi && Undone(log, lo, hi, p) && Covers(log[p], a);
          var q := LowestExists(log, lo, hi, p, a);
        }
      }
    }
  }

  /** Running recovery again, from its own result, changes nothing. */
  lemma RecoverIdempotent(log: seq<Cell>, lo: nat, hi: nat, data: seq<Byte>)
    requires lo <= hi <= |log| && Fits(log, |data|)
    ensures Recover(log, lo, hi, Recover(log, lo, hi, data)) == Recover(log, lo, hi, data)
  {
    var r := Recover(log, lo, hi, data);
    RecoverIff(log, lo, hi, data, r);
    RecoverIff(log, lo, hi, r, r);
  }
}
