/** Wiping the last generation during recovery (pmfs_recover_transaction with
    pmfs_invalidate_logentries): a fence follows the wipe of a start record, and all other
    wipes become persistent in any order. What a second crash at any moment leaves, and
    exactly when a recovery that starts over still gives what the first one would have. */
module PmfsWipe {
  import opened PmfsUndoWalk
  import opened PmfsRecovery

  /** The log with the slots of `w` wiped. */
  function Without(log: seq<Cell>, w: set<nat>): (r: seq<Cell>)
    ensures |r| == |log| && forall q | 0 <= q < |log| :: r[q] == if q in w then Dead(log[q]) else log[q]
  {
    seq(|log|, q requires 0 <= q < |log| => if q in w then Dead(log[q]) else log[q])
  }

  /** What a recovery that starts over makes of the data when the slots of `w` are wiped. */
  function Restarted(log: seq<Cell>, lo: nat, hi: nat, w: set<nat>, data: seq<Byte>): seq<Byte>
    requires lo <= hi <= |log| && Fits(log, |data|)
  {
    assert Fits(Without(log, w), |data|);
    Recover(Without(log, w), lo, hi, data)
  }

  /** The walk has dealt with the groups from `b` on, and the wiped slots that are persistent are
      some of theirs, all start records among them. */
  ghost predicate Wiping(log: seq<Cell>, lo: nat, b: nat, hi: nat, w: set<nat>) {
    && lo <= b <= hi <= |log| && (forall q | q in w :: b <= q < hi)
    && forall q | b <= q < hi && log[q].live && log[q].start :: q in w
  }

  /** The lap of `b` goes up to `q`. */
  predicate SameLap(log: seq<Cell>, b: nat, q: nat) { forall x | b <= x <= q && x < |log| :: !log[x].edge }

  /** A closing record that is not wiped and comes to close what lies below `b`. */
  ghost predicate Closing(log: seq<Cell>, b: nat, hi: nat, w: set<nat>, e: nat)
    requires hi <= |log|
  {
    b <= e < hi && e !in w && log[e].live && log[e].fin && SameLap(log, b, e)
  }

  /** A record that is not wiped and comes to belong to what lies below `b`. */
  ghost predicate Left(log: seq<Cell>, b: nat, hi: nat, w: set<nat>, q: nat)
    requires hi <= |log|
  {
    b <= q < hi && q !in w && log[q].live && SameLap(log, b, q)
  }

  /** Every byte that below `b` only the transaction from `s` on has saved has its value. */
  ghost predicate NothingToUndo(log: seq<Cell>, lo: nat, b: nat, s: nat, data: seq<Byte>, want: seq<Byte>)
    requires b <= |log| && |data| == |want|
  {
    forall a: nat | a < |data| && OnlyFrom(log, lo, b, s, a) :: data[a] == want[a]
  }

  ghost predicate OnlyFrom(log: seq<Cell>, lo: nat, b: nat, s: nat, a: nat)
    requires b <= |log|
  {
    forall q: nat | q < s && Undone(log, lo, b, q) :: !Covers(log[q], a)
  }

  /** The oldest record left that saved a byte, and no record below did, saved the value that
      the byte is to have. */
  ghost predicate RestSavesWanted(log: seq<Cell>, lo: nat, b: nat, hi: nat, w: set<nat>, want: seq<Byte>)
    requires b <= hi <= |log|
  {
    forall r: nat, a: nat | a < |want| && OldestLeft(log, b, hi, w, r, a) && Untouched(log, lo, b, a) ::
      log[r].saved[a - log[r].addr] == want[a]
  }

  ghost predicate OldestLeft(log: seq<Cell>, b: nat, hi: nat, w: set<nat>, r: nat, a: nat)
    requires hi <= |log|
  {
    Left(log, b, hi, w, r) && Covers(log[r], a) && forall q | 0 <= q < r && Left(log, b, hi, w, q) :: !Covers(log[q], a)
  }

  /** When it is harmless that the power fails: no open transaction reaches up to `b`; or one
      does, but a closing record, still there, closes nothing that needs undoing; or, with no
      closing record there, the records left restore what they should when they are taken for
      part of that transaction. */
  ghost predicate Harmless(log: seq<Cell>, lo: nat, b: nat, hi: nat, w: set<nat>, data: seq<Byte>, want: seq<Byte>)
    requires b <= hi <= |log| && |data| == |want|
  {
    b == hi || Unreached(log, lo, b) ||
    exists s: nat :: lo <= s && Reaches(log, s, b) &&
      if exists e :: Closing(log, b, hi, w, e) then NothingToUndo(log, lo, b, s, data, want)
      else RestSavesWanted(log, lo, b, hi, w, want)
  }

  /** For every point of the walk and every set of wiped slots that can be persistent then. */
  lemma WipeIff(log: seq<Cell>, lo: nat, b: nat, hi: nat, w: set<nat>, data: seq<Byte>, want: seq<Byte>)
    requires Wiping(log, lo, b, hi, w) && Fits(log, |data|) && Restores(log, lo, b, data, want)
    ensures Restarted(log, lo, hi, w, data) == want <==> Harmless(log, lo, b, hi, w, data, want)
  {
    hide Undone, Restores, Recover, Unreached, Reaches, NothingToUndo, RestSavesWanted, Without, Closing;
    var log' := Without(log, w);
    RecoverIff(log', lo, hi, data, want);
    if b == hi {
      UndoneFrame(log, log', lo, hi);
      SameRestores(log, b, log', hi, lo, data, want);
    } else if Unreached(log, lo, b) {
      GroupAlone(log, lo, b, hi, w);
      SameRestores(log, b, log', hi, lo, data, want);
    } else {
      var s := Reacher(log, lo, b);
      forall t: nat | lo <= t && Reaches(log, t, b) ensures t == s { OneReaches(log, s, t, b); }
      if e: nat :| Closing(log, b, hi, w, e) {
        WipeClosing(log, lo, b, hi, w, s, e, data, want);
      } else {
        WipeOpen(log, lo, b, hi, w, s, data, want);
      }
    }
  }

  lemma Reacher(log: seq<Cell>, lo: nat, b: nat) returns (s: nat)
    requires b < |log| && !Unreached(log, lo, b)
    ensures lo <= s && Reaches(log, s, b) && !log[b].edge
  {
    s :| lo <= s && Reaches(log, s, b);
  }

  lemma OneReaches(log: seq<Cell>, s: nat, t: nat, b: nat)
    requires b < |log| && Reaches(log, s, b) && Reaches(log, t, b)
    ensures s == t
  {
    assert Mark(log[s]) && Mark(log[t]);
  }

  /** What is left: the slots below `b`, and above it no start record. */
  ghost predicate Rest(log: seq<Cell>, log': seq<Cell>, b: nat, hi: nat) {
    && b < hi <= |log| == |log'| && (forall x | 0 <= x < b :: log'[x] == log[x])
    && (forall x | b <= x < hi :: log'[x].edge == log[x].edge && !(log'[x].live && log'[x].start))
  }

  /** Nothing above `b` is undone, and nothing below changes. */
  lemma GroupAlone(log: seq<Cell>, lo: nat, b: nat, hi: nat, w: set<nat>)
    requires Wiping(log, lo, b, hi, w) && b < hi && Unreached(log, lo, b)
    ensures SameUndone(log, b, Without(log, w), hi, lo)
  {
    hide Under, Capped;
    var log' := Without(log, w);
    forall q: nat | Undone(log, lo, b, q)
      ensures Undone(log', lo, hi, q) && log'[q] == log[q]
    {
      AloneKeeps(log, log', lo, b, hi, q);
    }
    forall q: nat | Undone(log', lo, hi, q) ensures Undone(log, lo, b, q) { AloneDrops(log, log', lo, b, hi, q); }
  }

  lemma AloneKeeps(log: seq<Cell>, log': seq<Cell>, lo: nat, b: nat, hi: nat, q: nat)
    requires Rest(log, log', b, hi) && Unreached(log, lo, b) && Undone(log, lo, b, q)
    ensures Undone(log', lo, hi, q)
  {
    var s :| lo <= s <= q && Opens(log, s, q);
    assert Opens(log', s, q);
    assert log[b].edge || !Reaches(log, s, b);
    if Capped(log', q, hi) {
      var e :| q < e < hi && Caps(log', q, e);
      assert e < b;
      assert Caps(log, q, e);
    }
  }

  lemma AloneDrops(log: seq<Cell>, log': seq<Cell>, lo: nat, b: nat, hi: nat, q: nat)
    requires Rest(log, log', b, hi) && Unreached(log, lo, b) && Undone(log', lo, hi, q)
    ensures Undone(log, lo, b, q)
  {
    var s :| lo <= s <= q && Opens(log', s, q);
    assert s < b;
    assert log[b].edge || !Reaches(log, s, b);
    assert q < b;
    assert Opens(log, s, q);
    if Capped(log, q, b) {
      var e :| q < e < b && Caps(log, q, e);
      assert Caps(log', q, e);
    }
  }

  // ---------------------------------------------------- reached, closing record left

  lemma {:induction false} FirstClosing(log: seq<Cell>, b: nat, hi: nat, w: set<nat>, e: nat) returns (f: nat)
    requires hi <= |log| && Closing(log, b, hi, w, e)
    ensures Closing(log, b, hi, w, f) && forall q | b <= q < f && log[q].live && log[q].fin :: q in w
    decreases e
  {
    if q: nat :| b <= q < e && log[q].live && log[q].fin && q !in w {
      f := FirstClosing(log, b, hi, w, q);
    } else {
      f := e;
    }
  }

  lemma WipeClosing(log: seq<Cell>, lo: nat, b: nat, hi: nat, w: set<nat>, s: nat, e: nat, data: seq<Byte>,
                    want: seq<Byte>)
    requires Wiping(log, lo, b, hi, w) && b < hi && Restores(log, lo, b, data, want)
    requires lo <= s && Reaches(log, s, b) && !log[b].edge && Closing(log, b, hi, w, e)
    ensures Restores(Without(log, w), lo, hi, data, want) <==> NothingToUndo(log, lo, b, s, data, want)
  {
    hide Under, Capped;
    var log' := Without(log, w);
    var f := FirstClosing(log, b, hi, w, e);
    forall q: nat
      ensures Undone(log', lo, hi, q) <==> q < s && Undone(log, lo, b, q)
    {
      ClosedUndone(log, log', lo, b, hi, s, f, q);
    }
    OnlyBelow(log, log', lo, b, hi, s, data, want);
  }

  lemma OnlyBelow(log: seq<Cell>, log': seq<Cell>, lo: nat, b: nat, hi: nat, s: nat, data: seq<Byte>, want: seq<Byte>)
    requires Rest(log, log', b, hi) && s < b && Restores(log, lo, b, data, want)
    requires forall q: nat :: Undone(log', lo, hi, q) <==> q < s && Undone(log, lo, b, q)
    ensures Restores(log', lo, hi, data, want) <==> NothingToUndo(log, lo, b, s, data, want)
  {
    hide Under, Capped;
    forall a: nat ensures Untouched(log', lo, hi, a) <==> OnlyFrom(log, lo, b, s, a) {
      if !Untouched(log', lo, hi, a) {
        var q :| lo <= q < hi && Undone(log', lo, hi, q) && Covers(log'[q], a);
        assert Undone(log, lo, b, q);
      }
      if !OnlyFrom(log, lo, b, s, a) {
        var q: nat :| q < s && Undone(log, lo, b, q) && Covers(log[q], a);
        assert Undone(log', lo, hi, q);
      }
    }
    forall a, p | 0 <= a < |data| && lo <= p < hi && Lowest(log', lo, hi, p, a)
      ensures log'[p].saved[a - log'[p].addr] == want[a]
    {
      assert Undone(log, lo, b, p) && log'[p] == log[p];
      forall q | lo <= q < p && Undone(log, lo, b, q) ensures !Covers(log[q], a) { assert Undone(log', lo, hi, q); }
      assert Lowest(log, lo, b, p, a);
    }
  }

  lemma ClosedUndone(log: seq<Cell>, log': seq<Cell>, lo: nat, b: nat, hi: nat, s: nat, e: nat, q: nat)
    requires Rest(log, log', b, hi) && lo <= s && Reaches(log, s, b)
    requires b <= e < hi && log'[e].live && log'[e].fin && SameLap(log, b, e)
    requires forall x | b <= x < e :: !(log'[x].live && log'[x].fin)
    ensures Undone(log', lo, hi, q) <==> q < s && Undone(log, lo, b, q)
  {
    if lo <= q < hi && log'[q].live && !log'[q].fin {
      if s <= q < e {
        assert Caps(log', q, e);
      } else if q < s {
        BelowStart(log, log', lo, b, hi, s, q);
      }
    }
  }

  /** Records below the start of the open transaction are judged as before. */
  lemma BelowStart(log: seq<Cell>, log': seq<Cell>, lo: nat, b: nat, hi: nat, s: nat, q: nat)
    requires q < s < b <= hi <= |log| == |log'| && (forall x | 0 <= x < b :: log'[x] == log[x]) && Mark(log[s])
    ensures Undone(log', lo, hi, q) <==> Undone(log, lo, b, q)
  {
    if lo <= q {
      forall x | lo <= x <= q ensures Opens(log', x, q) <==> Opens(log, x, q) {}
      if Capped(log', q, hi) {
        var e :| q < e < hi && Caps(log', q, e);
        assert e <= s && Caps(log, q, e);
      }
      if Capped(log, q, b) {
        var e :| q < e < b && Caps(log, q, e);
        assert Caps(log', q, e);
      }
    }
  }

  // ------------------------------------------------- reached, no closing record left

  lemma WipeOpen(log: seq<Cell>, lo: nat, b: nat, hi: nat, w: set<nat>, s: nat, data: seq<Byte>, want: seq<Byte>)
    requires Wiping(log, lo, b, hi, w) && b < hi && Restores(log, lo, b, data, want)
    requires lo <= s && Reaches(log, s, b) && !log[b].edge && !exists e :: Closing(log, b, hi, w, e)
    ensures Restores(Without(log, w), lo, hi, data, want) <==> RestSavesWanted(log, lo, b, hi, w, want)
  {
    hide Undone, Restores, RestSavesWanted;
    var log' := Without(log, w);
    forall q: nat ensures Undone(log', lo, hi, q) <==> Undone(log, lo, b, q) || Left(log, b, hi, w, q) {
      OpenStill(log, log', lo, b, hi, w, s, q);
    }
    if RestSavesWanted(log, lo, b, hi, w, want) { LeftRestores(log, log', lo, b, hi, w, data, want); }
    if Restores(log', lo, hi, data, want) { RestoresLeft(log, log', lo, b, hi, w, data, want); }
  }

  /** What is undone: what is undone below `b`, and the records left. */
  ghost predicate Joins(log: seq<Cell>, log': seq<Cell>, lo: nat, b: nat, hi: nat, w: set<nat>) {
    && lo <= b <= hi <= |log| == |log'| && (forall q | q in w :: b <= q)
    && (forall q | 0 <= q < |log| && q !in w :: log'[q] == log[q])
    && forall q: nat :: Undone(log', lo, hi, q) <==> Undone(log, lo, b, q) || Left(log, b, hi, w, q)
  }

  lemma LeftRestores(log: seq<Cell>, log': seq<Cell>, lo: nat, b: nat, hi: nat, w: set<nat>, data: seq<Byte>,
                     want: seq<Byte>)
    requires Joins(log, log', lo, b, hi, w) && Restores(log, lo, b, data, want)
    requires RestSavesWanted(log, lo, b, hi, w, want)
    ensures Restores(log', lo, hi, data, want)
  {
    hide Under, Capped, SameLap;
    forall a | 0 <= a < |data| && Untouched(log', lo, hi, a) ensures data[a] == want[a] {
      forall q | lo <= q < b && Undone(log, lo, b, q) ensures !Covers(log[q], a) { assert Undone(log', lo, hi, q); }
      assert Untouched(log, lo, b, a);
    }
    forall a, p | 0 <= a < |data| && lo <= p < hi && Lowest(log', lo, hi, p, a)
      ensures log'[p].saved[a - log'[p].addr] == want[a]
    {
      LowestLeft(log, log', lo, b, hi, w, p, a);
    }
  }

  lemma RestoresLeft(log: seq<Cell>, log': seq<Cell>, lo: nat, b: nat, hi: nat, w: set<nat>, data: seq<Byte>,
                     want: seq<Byte>)
    requires Joins(log, log', lo, b, hi, w) && Restores(log', lo, hi, data, want)
    ensures RestSavesWanted(log, lo, b, hi, w, want)
  {
    hide Under, Capped, SameLap;
    forall r: nat, a: nat | a < |want| && OldestLeft(log, b, hi, w, r, a) && Untouched(log, lo, b, a)
      ensures log[r].saved[a - log[r].addr] == want[a]
    {
      assert Undone(log', lo, hi, r);
      forall q | lo <= q < r && Undone(log', lo, hi, q) ensures !Covers(log'[q], a) {
        assert Undone(log, lo, b, q) || Left(log, b, hi, w, q);
      }
      assert Lowest(log', lo, hi, r, a);
    }
  }

  lemma OpenStill(log: seq<Cell>, log': seq<Cell>, lo: nat, b: nat, hi: nat, w: set<nat>, s: nat, q: nat)
    requires Rest(log, log', b, hi) && lo <= s && Reaches(log, s, b) && !exists e :: Closing(log, b, hi, w, e)
    requires forall x | b <= x < hi :: log'[x].live == (x !in w && log[x].live) && (log'[x].live ==> log'[x] == log[x])
    ensures Undone(log', lo, hi, q) <==> Undone(log, lo, b, q) || Left(log, b, hi, w, q)
  {
    forall x | b <= x < hi && SameLap(log, b, x) ensures !Mark(log'[x]) { assert !Closing(log, b, hi, w, x); }
    if lo <= q < hi && log'[q].live {
      if q < s {
        BelowStart(log, log', lo, b, hi, s, q);
      } else if q < b {
        assert Opens(log, s, q) && Opens(log', s, q);
        assert !Capped(log, q, b);
        NotCapped(log, log', b, hi, s, q);
      } else if SameLap(log, b, q) {
        assert Opens(log', s, q);
        NotCapped(log, log', b, hi, s, q);
      } else {
        assert !Under(log', lo, q);
      }
    }
  }

  lemma NotCapped(log: seq<Cell>, log': seq<Cell>, b: nat, hi: nat, s: nat, q: nat)
    requires Rest(log, log', b, hi) && Reaches(log, s, b) && s <= q < hi
    requires forall x | b <= x < hi && SameLap(log, b, x) :: !Mark(log'[x])
    requires q >= b ==> SameLap(log, b, q)
    ensures !Capped(log', q, hi)
  {
    forall e | q < e < hi ensures !Caps(log', q, e) {
      if e >= b && (forall x | q < x <= e :: !log'[x].edge) { assert SameLap(log, b, e); }
    }
  }

  lemma LowestLeft(log: seq<Cell>, log': seq<Cell>, lo: nat, b: nat, hi: nat, w: set<nat>, p: nat, a: nat)
    requires Joins(log, log', lo, b, hi, w) && lo <= p < hi && Lowest(log', lo, hi, p, a)
    ensures log'[p] == log[p]
    ensures Lowest(log, lo, b, p, a) || (OldestLeft(log, b, hi, w, p, a) && Untouched(log, lo, b, a))
  {
    hide Under, Capped, SameLap;
    assert Undone(log', lo, hi, p);
    if Undone(log, lo, b, p) {
      forall q | lo <= q < p && Undone(log, lo, b, q) ensures !Covers(log[q], a) { assert Undone(log', lo, hi, q); }
    } else {
      forall q | 0 <= q < p && Left(log, b, hi, w, q) ensures !Covers(log[q], a) { assert Undone(log', lo, hi, q); }
      forall q | lo <= q < b && Undone(log, lo, b, q) ensures !Covers(log[q], a) { assert Undone(log', lo, hi, q); }
    }
  }
}
