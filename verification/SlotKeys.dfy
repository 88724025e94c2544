/** Keys of the SlotFS radix tree (slotfs/btree.c) as digits in base 256, the branch taken at
    each level. */
module SlotKeys {
  import opened Division

  const BRANCH: nat := 256

  /** max_keys[h]: the keys below a node of height `h`. */
  function Cap(h: nat): (c: nat)
    ensures c >= BRANCH
  {
    if h == 0 then BRANCH else BRANCH * Cap(h - 1)
  }

  ghost predicate IsDigits(ds: seq<nat>) { forall i | 0 <= i < |ds| :: ds[i] < BRANCH }

  /** The branches that the descent to `key` takes in a tree of height `h`, then the slot. */
  function Digits(key: nat, h: nat): (ds: seq<nat>)
    requires key < Cap(h)
    ensures |ds| == h + 1 && forall i | 0 <= i < |ds| :: ds[i] < BRANCH
  {
    if h == 0 then [key]
    else [Quot(key, Cap(h - 1))] + Digits(Rem(key, Cap(h - 1)), h - 1)
  }

  function Quot(key: nat, c: nat): (q: nat)
    requires c > 0 && key < BRANCH * c
    ensures q < BRANCH
  {
    DivMod(key, BRANCH, c);
    key / c
  }

  function Rem(key: nat, c: nat): (r: nat)
    requires c > 0
    ensures r < c
  {
    key % c
  }

  lemma QuotRem(key: nat, c: nat)
    requires c > 0 && key < BRANCH * c
    ensures key == Quot(key, c) * c + Rem(key, c)
  {
    DivMod(key, BRANCH, c);
  }

  lemma QuotRemOf(q: nat, r: nat, c: nat)
    requires r < c && q < BRANCH
    ensures q * c + r < BRANCH * c && Quot(q * c + r, c) == q && Rem(q * c + r, c) == r
  {
    Split(q, r, c);
    Grows(BRANCH, q + 1, c);
  }

  /** Different keys take different ways. */
  lemma {:induction false} DigitsDiffer(a: nat, b: nat, h: nat)
    requires a < Cap(h) && b < Cap(h)
    ensures Digits(a, h) == Digits(b, h) <==> a == b
    decreases h
  {
    if Digits(a, h) == Digits(b, h) && h > 0 {
      hide Quot, Rem;
      var c := Cap(h - 1);
      QuotRem(a, c);
      QuotRem(b, c);
      assert Digits(a, h)[0] == Quot(a, c) && Digits(b, h)[0] == Quot(b, c);
      assert Digits(a, h)[1..] == Digits(Rem(a, c), h - 1) && Digits(b, h)[1..] == Digits(Rem(b, c), h - 1);
      DigitsDiffer(Rem(a, c), Rem(b, c), h - 1);
    }
  }

  /** One more level: the old keys go through branch 0. */
  lemma DigitsGrow(key: nat, h: nat)
    requires key < Cap(h)
    ensures key < Cap(h + 1) && Digits(key, h + 1) == [0] + Digits(key, h)
  {
    hide Quot, Rem;
    QuotRemOf(0, key, Cap(h));
    assert 0 * Cap(h) + key == key;
  }

  // ------------------------------------------------------------ the next key

  ghost predicate Full(ds: seq<nat>) { forall i | 0 <= i < |ds| :: ds[i] == BRANCH - 1 }

  function Zeros(n: nat): (z: seq<nat>)
    ensures |z| == n && forall i | 0 <= i < n :: z[i] == 0
  {
    seq(n, _ => 0)
  }

  /** Adding one with carry, last digit first. */
  ghost function Succ(ds: seq<nat>): (r: seq<nat>)
    requires IsDigits(ds) && !Full(ds)
    ensures |r| == |ds|
  {
    var n := |ds| - 1;
    if ds[n] + 1 < BRANCH then ds[..n] + [ds[n] + 1]
    else
      assert !Full(ds[..n]) by { NotFullFront(ds); }
      Succ(ds[..n]) + [0]
  }

  lemma NotFullFront(ds: seq<nat>)
    requires IsDigits(ds) && !Full(ds) && ds[|ds| - 1] + 1 >= BRANCH
    ensures !Full(ds[..|ds| - 1])
  {
    var i :| 0 <= i < |ds| && ds[i] != BRANCH - 1;
    assert ds[..|ds| - 1][i] == ds[i];
  }

  lemma {:induction false} SuccFront(d: nat, ds: seq<nat>)
    requires d < BRANCH && IsDigits(ds) && !Full(ds)
    ensures IsDigits([d] + ds) && !Full([d] + ds) && Succ([d] + ds) == [d] + Succ(ds)
    decreases |ds|
  {
    var e, n := [d] + ds, |ds| - 1;
    var i :| 0 <= i < |ds| && ds[i] != BRANCH - 1;
    assert e[i + 1] == ds[i];
    assert e[..n + 1] == [d] + ds[..n] && e[n + 1] == ds[n];
    if ds[n] + 1 >= BRANCH {
      NotFullFront(ds);
      SuccFront(d, ds[..n]);
    }
  }

  lemma {:induction false} SuccCarry(d: nat, ds: seq<nat>)
    requires d + 1 < BRANCH && Full(ds)
    ensures IsDigits([d] + ds) && !Full([d] + ds) && Succ([d] + ds) == [d + 1] + Zeros(|ds|)
    decreases |ds|
  {
    var e := [d] + ds;
    assert e[0] == d;
    if ds != [] {
      var n := |ds| - 1;
      assert e[..n + 1] == [d] + ds[..n] && e[n + 1] == ds[n];
      SuccCarry(d, ds[..n]);
      assert Zeros(n) + [0] == Zeros(n + 1);
    } else {
      assert e == [d];
    }
  }

  lemma {:induction false} DigitsZero(h: nat)
    ensures Digits(0, h) == Zeros(h + 1)
  {
    if h > 0 {
      hide Quot, Rem;
      DigitsZero(h - 1);
      QuotRemOf(0, 0, Cap(h - 1));
      assert 0 * Cap(h - 1) + 0 == 0;
      assert [0] + Zeros(h) == Zeros(h + 1);
    }
  }

  /** The last key of a tree has all digits 255, and no other key has. */
  lemma {:induction false} DigitsFull(key: nat, h: nat)
    requires key < Cap(h)
    ensures Full(Digits(key, h)) <==> key + 1 == Cap(h)
  {
    if h > 0 {
      hide Quot, Rem;
      var c := Cap(h - 1);
      var q, r := Quot(key, c), Rem(key, c);
      QuotRem(key, c);
      DigitsFull(r, h - 1);
      var ds := Digits(key, h);
      assert ds[0] == q && ds[1..] == Digits(r, h - 1);
      FullFront(ds);
      LastKey(key, q, r, c);
    } else {
      assert Digits(key, h)[0] == key;
    }
  }

  lemma LastKey(key: nat, q: nat, r: nat, c: nat)
    requires r < c && q < BRANCH && key == q * c + r
    ensures key + 1 == BRANCH * c <==> q == BRANCH - 1 && r + 1 == c
  {
    if q < BRANCH - 1 { Grows(BRANCH - 1, q + 1, c); }
  }

  lemma FullFront(ds: seq<nat>)
    requires ds != []
    ensures Full(ds) <==> ds[0] == BRANCH - 1 && Full(ds[1..])
  {
    assert forall i | 0 <= i < |ds| - 1 :: ds[1..][i] == ds[i + 1];
    if ds[0] == BRANCH - 1 && Full(ds[1..]) {
      forall i | 0 <= i < |ds| ensures ds[i] == BRANCH - 1 { if i > 0 { assert ds[i] == ds[1..][i - 1]; } }
    }
  }

  /** Adding one to the digits adds one to the key. */
  lemma {:induction false} DigitsSucc(key: nat, h: nat)
    requires key + 1 < Cap(h)
    ensures !Full(Digits(key, h)) && Succ(Digits(key, h)) == Digits(key + 1, h)
  {
    if h > 0 {
      hide Quot, Rem, Full, Succ, Digits;
      var c := Cap(h - 1);
      var q, r := Quot(key, c), Rem(key, c);
      QuotRem(key, c);
      if r + 1 < c {
        DigitsSucc(r, h - 1);
        NoCarry(key, q, r, h);
      } else {
        Carry(key, q, r, h);
      }
    } else {
      assert Digits(key, h)[..0] == [] && Digits(key, h)[0] == key;
    }
  }

  lemma NoCarry(key: nat, q: nat, r: nat, h: nat)
    requires h > 0 && q < BRANCH && r + 1 < Cap(h - 1) && key == q * Cap(h - 1) + r && key + 1 < Cap(h)
    requires !Full(Digits(r, h - 1)) && Succ(Digits(r, h - 1)) == Digits(r + 1, h - 1)
    ensures !Full(Digits(key, h)) && Succ(Digits(key, h)) == Digits(key + 1, h)
  {
    hide Quot, Rem, Full, Succ, Digits;
    DigitsAre(key, q, r, h);
    DigitsAre(key + 1, q, r + 1, h);
    SuccFront(q, Digits(r, h - 1));
  }

  lemma Carry(key: nat, q: nat, r: nat, h: nat)
    requires h > 0 && q < BRANCH && r + 1 == Cap(h - 1) && key == q * Cap(h - 1) + r && key + 1 < Cap(h)
    ensures !Full(Digits(key, h)) && Succ(Digits(key, h)) == Digits(key + 1, h)
  {
    hide Quot, Rem, Full, Succ, Digits;
    LastKey(key, q, r, Cap(h - 1));
    DigitsAre(key, q, r, h);
    NextMultiple(key, q, r, Cap(h - 1));
    DigitsAre(key + 1, q + 1, 0, h);
    DigitsFull(r, h - 1);
    SuccCarry(q, Digits(r, h - 1));
    DigitsZero(h - 1);
  }

  lemma NextMultiple(key: nat, q: nat, r: nat, c: nat)
    requires key == q * c + r && r + 1 == c
    ensures key + 1 == (q + 1) * c + 0
  {
  }

  lemma DigitsAre(key: nat, q: nat, r: nat, h: nat)
    requires h > 0 && q < BRANCH && r < Cap(h - 1) && key == q * Cap(h - 1) + r && key < Cap(h)
    ensures Digits(key, h) == [q] + Digits(r, h - 1)
  {
    hide Quot, Rem;
    QuotRemOf(q, r, Cap(h - 1));
  }
}
