/** Addresses that an allocator can still hand out. */
module FreshIds {
  lemma FreshExists(s: set<nat>)
    ensures exists x: nat :: x !in s
  {
    var b := Above(s);
    assert b !in s;
  }

  /** A block number above those of a set. */
  ghost function Above(s: set<nat>): (b: nat)
    ensures forall x | x in s :: x < b
  {
    if s == {} then 0
    else
      var y :| y in s;
      var b := Above(s - {y});
      assert s == (s - {y}) + {y};
      if y < b then b else y + 1
  }
}
