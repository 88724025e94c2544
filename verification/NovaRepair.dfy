/** Repair of corrupted stripes (nova_restore_data in nova/parity.c and the loop of
    nova_verify_data_csum in nova/checksum.c). */
module NovaRepair {
  import opened NovaParity

  /** What reconstruction gives for stripe `s`, from the parity and the other stripes. */
  function FromOthers(b: seq<Byte>, par: seq<Byte>, s: nat): (r: seq<Byte>)
    requires |b| == BLOCK && |par| == STRIPE && s < STRIPES
    ensures |r| == STRIPE
  {
    Parity(WithStripe(b, s, par))
  }

  /** The `i` first bytes as they are in the block, the others reconstructed. */
  function Candidate(b: seq<Byte>, par: seq<Byte>, s: nat, i: nat): (r: seq<Byte>)
    requires |b| == BLOCK && |par| == STRIPE && s < STRIPES && i <= STRIPE
    ensures |r| == STRIPE
  {
    Stripe(b, s)[..i] + FromOthers(b, par, s)[i..]
  }

  /** How many good leading bytes are tried: any number, but none if the stripe could not be
      read (`err`) or is the last one. */
  predicate Tried(s: nat, err: bool, i: nat) { i < STRIPE && (err || s == STRIPES - 1 ==> i == 0) }

  predicate Accepts(crc: seq<Byte> -> nat, c0: nat, c1: nat, r: seq<Byte>) { crc(r) == c0 || crc(r) == c1 }

  /** nova_restore_data: the first candidate that one of the checksums accepts. `lost` says
      that the parity or another stripe cannot be read. */
  method RestoreData(b: seq<Byte>, s: nat, par: seq<Byte>, err: bool, lost: bool, crc: seq<Byte> -> nat, c0: nat,
                     c1: nat)
    returns (ok: bool, b': seq<Byte>, good: nat)
    requires |b| == BLOCK && |par| == STRIPE && s < STRIPES
    ensures |b'| == BLOCK && (!ok ==> b' == b)
    ensures ok <==> !lost && exists i: nat :: Tried(s, err, i) && Accepts(crc, c0, c1, Candidate(b, par, s, i))
    ensures ok ==>
              exists i: nat ::
              Tried(s, err, i) && Accepts(crc, c0, c1, Candidate(b, par, s, i))
              && b' == WithStripe(b, s, Candidate(b, par, s, i)) && good == crc(Candidate(b, par, s, i))
  {
    hide WithStripe, Stripe;
    good := 0;
    if lost { return false, b, 0; }
    var bad := Stripe(b, s);
    var block := WithStripe(b, s, par);
    var strip := CalculateParity(block);
    var i := 0;
    assert strip == Candidate(b, par, s, 0);
    while i < STRIPE
      invariant 0 <= i <= STRIPE && |strip| == STRIPE && (i > 0 ==> !err && s != STRIPES - 1)
      invariant strip == Candidate(b, par, s, if i == 0 then 0 else i - 1)
      invariant forall j: nat | j < i :: !Accepts(crc, c0, c1, Candidate(b, par, s, j))
    {
      strip := bad[..i] + strip[i..];
      assert strip == Candidate(b, par, s, i);
      good := crc(strip);
      if good == c0 || good == c1 {
        return true, WithStripe(b, s, strip), good;
      }
      if err { return false, b, 0; }
      if s == STRIPES - 1 { return false, b, 0; }
      i := i + 1;
    }
    return false, b, 0;
  }

  /** One of the stored checksums is that of the original stripe, and none of the contents
      that verification looks at, the stripe as it is and the candidates, is accepted unless
      it is the original. */
  ghost predicate Tells(crc: seq<Byte> -> nat, c0: nat, c1: nat, b: seq<Byte>, par: seq<Byte>, s: nat, err: bool,
                        right: seq<Byte>)
    requires |b| == BLOCK && |par| == STRIPE && s < STRIPES
  {
    && Accepts(crc, c0, c1, right)
    && (Accepts(crc, c0, c1, Stripe(b, s)) ==> Stripe(b, s) == right)
    && forall i: nat | Tried(s, err, i) && Accepts(crc, c0, c1, Candidate(b, par, s, i)) ::
        Candidate(b, par, s, i) == right
  }

  /** The candidate is the original stripe exactly if the leading bytes are intact and the
      other stripes' damage cancels out in the rest. */
  ghost predicate Recoverable(b: seq<Byte>, o: seq<Byte>, s: nat, i: nat)
    requires |b| == BLOCK && |o| == BLOCK && s < STRIPES && i <= STRIPE
  {
    && (forall j | 0 <= j < i :: At(b, s, j) == At(o, s, j))
    && (forall j | i <= j < STRIPE :: Delta(b, o, s, j) == 0)
  }

  lemma CandidateIff(b: seq<Byte>, o: seq<Byte>, s: nat, i: nat)
    requires |b| == BLOCK && |o| == BLOCK && s < STRIPES && i <= STRIPE
    ensures Candidate(b, Parity(o), s, i) == Stripe(o, s) <==> Recoverable(b, o, s, i)
  {
    hide Parity, WithStripe, Delta, At;
    var c, r := Candidate(b, Parity(o), s, i), Stripe(o, s);
    forall j | i <= j < STRIPE ensures c[j] == r[j] <==> Delta(b, o, s, j) == 0 { Rebuilt(b, o, s, j); }
    forall j | 0 <= j < i
      ensures c[j] == r[j] <==> At(b, s, j) == At(o, s, j)
    {
      assert Stripe(b, s)[..i][j] == Stripe(b, s)[j];
    }
    if c == r {
      forall j | 0 <= j < i ensures At(b, s, j) == At(o, s, j) { assert c[j] == r[j]; }
      forall j | i <= j < STRIPE ensures Delta(b, o, s, j) == 0 { assert c[j] == r[j]; }
    }
    if Recoverable(b, o, s, i) {
      forall j | 0 <= j < STRIPE ensures c[j] == r[j] {}
    }
  }

  /** A stripe is repaired exactly if some number of leading bytes makes it recoverable. */
  lemma RestoreIff(b: seq<Byte>, o: seq<Byte>, s: nat, err: bool, crc: seq<Byte> -> nat, c0: nat, c1: nat)
    requires |b| == BLOCK && |o| == BLOCK && s < STRIPES && Tells(crc, c0, c1, b, Parity(o), s, err, Stripe(o, s))
    ensures (exists i: nat :: Tried(s, err, i) && Accepts(crc, c0, c1, Candidate(b, Parity(o), s, i))) <==>
            exists i: nat :: Tried(s, err, i) && Recoverable(b, o, s, i)
  {
    hide Candidate, Recoverable, Stripe;
    forall i: nat | Tried(s, err, i)
      ensures Accepts(crc, c0, c1, Candidate(b, Parity(o), s, i)) <==> Recoverable(b, o, s, i)
    {
      CandidateIff(b, o, s, i);
    }
  }

  // ------------------------------------------------------- a run of damaged bytes

  /** The blocks differ only from byte `a` on, for at most a stripe's length, and not in the
      stripes before `s`, which have been repaired. */
  ghost predicate Scribbled(b: seq<Byte>, o: seq<Byte>, a: nat, s: nat) {
    && |b| == BLOCK && |o| == BLOCK
    && forall x | 0 <= x < BLOCK && !(a <= x < a + STRIPE && s * STRIPE <= x) :: b[x] == o[x]
  }

  /** Such damage is recoverable in the first stripe it reaches. */
  lemma ScribbleRecoverable(b: seq<Byte>, o: seq<Byte>, a: nat, s: nat, err: bool) returns (i: nat)
    requires s < STRIPES && Scribbled(b, o, a, s) && a < (s + 1) * STRIPE && (err ==> a <= s * STRIPE)
    ensures Tried(s, err, i) && Recoverable(b, o, s, i)
  {
    i := if a <= s * STRIPE || s == STRIPES - 1 then 0 else a - s * STRIPE;
    forall j | 0 <= j < i ensures At(b, s, j) == At(o, s, j) {}
    forall j | i <= j < STRIPE ensures Delta(b, o, s, j) == 0 {
      forall t | 0 <= t < STRIPES && t != s ensures At(b, t, j) == At(o, t, j) { OtherStripe(b, o, a, s, t, j); }
      NoDelta(b, o, s, j);
    }
  }

  lemma OtherStripe(b: seq<Byte>, o: seq<Byte>, a: nat, s: nat, t: nat, j: nat)
    requires s < STRIPES && Scribbled(b, o, a, s) && a < (s + 1) * STRIPE && t < STRIPES && t != s && j < STRIPE
    requires a <= s * STRIPE || s == STRIPES - 1 || j >= a - s * STRIPE
    ensures At(b, t, j) == At(o, t, j)
  {
    var x := t * STRIPE + j;
    assert t > s ==> x >= (s + 1) * STRIPE && (t > s + 1 ==> x >= (s + 2) * STRIPE);
  }

  /** A stripe that is not the original is reached by the damage. */
  lemma ReachedHere(b: seq<Byte>, o: seq<Byte>, a: nat, s: nat)
    requires s < STRIPES && Scribbled(b, o, a, s) && Stripe(b, s) != Stripe(o, s)
    ensures s * STRIPE < a + STRIPE && a < (s + 1) * STRIPE
  {
    var i :| 0 <= i < STRIPE && Stripe(b, s)[i] != Stripe(o, s)[i];
    assert At(b, s, i) != At(o, s, i);
  }

  lemma RepairedOne(b: seq<Byte>, o: seq<Byte>, a: nat, s: nat)
    requires s < STRIPES && Scribbled(b, o, a, s)
    ensures Scribbled(WithStripe(b, s, Stripe(o, s)), o, a, s + 1)
    ensures Stripe(b, s) == Stripe(o, s) ==> Scribbled(b, o, a, s + 1)
  {
    var b' := WithStripe(b, s, Stripe(o, s));
    forall x | 0 <= x < BLOCK && !(a <= x < a + STRIPE && (s + 1) * STRIPE <= x) ensures b'[x] == o[x] {
      if s * STRIPE <= x < (s + 1) * STRIPE { assert b'[x] == Stripe(o, s)[x - s * STRIPE]; }
    }
    if Stripe(b, s) == Stripe(o, s) {
      forall x | 0 <= x < BLOCK && !(a <= x < a + STRIPE && (s + 1) * STRIPE <= x) ensures b[x] == o[x] {
        if s * STRIPE <= x < (s + 1) * STRIPE { assert b[x] == Stripe(b, s)[x - s * STRIPE] == o[x]; }
      }
    }
  }

  /** The block when stripe `s` is looked at: the stripes before it are repaired. */
  ghost function Mended(b: seq<Byte>, o: seq<Byte>, s: nat): (m: seq<Byte>)
    requires |b| == BLOCK && |o| == BLOCK && s < STRIPES
    ensures |m| == BLOCK
  {
    o[..s * STRIPE] + b[s * STRIPE..]
  }

  /** The checksums tell, stripe by stripe, in the blocks that verification goes through. */
  ghost predicate AllTell(crc: seq<Byte> -> nat, c0: seq<nat>, c1: seq<nat>, b: seq<Byte>, o: seq<Byte>, bad: set<nat>,
                          first: nat, count: nat)
    requires first + count <= STRIPES
  {
    && |c0| == STRIPES && |c1| == STRIPES && |o| == BLOCK && |b| == BLOCK
    && forall s | first <= s < first + count ::
        Tells(crc, c0[s], c1[s], Mended(b, o, s), Parity(o), s, s in bad, Stripe(o, s))
  }

  /** nova_verify_data_csum within one block, from stripe `first` on: damage of at most a
      stripe's length, wherever it starts at or after that stripe and even across a stripe
      boundary, is gone from the stripes verified, and both copies of their checksums are
      right. A stripe that cannot be read (`bad`) is repaired too if it holds all the damage. */
  method VerifyData(b: seq<Byte>, par: seq<Byte>, bad: set<nat>, crc: seq<Byte> -> nat, c0: seq<nat>, c1: seq<nat>,
                    first: nat, count: nat,
                    ghost o: seq<Byte>, ghost a: nat)
    returns (ok: bool, b': seq<Byte>, d0: seq<nat>, d1: seq<nat>)
    requires first + count <= STRIPES && AllTell(crc, c0, c1, b, o, bad, first, count) && par == Parity(o)
    requires Scribbled(b, o, a, first)
    requires forall s | s in bad :: a == s * STRIPE
    ensures ok && Scribbled(b', o, a, first + count) && |d0| == STRIPES && |d1| == STRIPES
    ensures forall s | first <= s < first + count :: d0[s] == crc(Stripe(o, s)) == d1[s]
    ensures forall s | 0 <= s < STRIPES && !(first <= s < first + count) :: d0[s] == c0[s] && d1[s] == c1[s]
  {
    hide Parity, WithStripe, Stripe, Scribbled, Recoverable, Candidate, Mended;
    ok, b', d0, d1 := true, b, c0, c1;
    var s := first;
    if first < STRIPES { MendedFirst(b, o, a, first); }
    while s < first + count
      invariant ok && first <= s <= first + count && |d0| == STRIPES && |d1| == STRIPES && |b'| == BLOCK
      invariant Scribbled(b', o, a, s)
      invariant s < STRIPES ==> b' == Mended(b, o, s)
      invariant forall t | first <= t < s :: d0[t] == crc(Stripe(o, t)) == d1[t]
      invariant forall t | 0 <= t < STRIPES && !(first <= t < s) :: d0[t] == c0[t] && d1[t] == c1[t]
    {
      var sum := crc(Stripe(b', s));
      assert Tells(crc, c0[s], c1[s], b', par, s, s in bad, Stripe(o, s));
      RepairedOne(b', o, a, s);
      MendedNext(b, o, s);
      if s in bad || (sum != c0[s] && sum != c1[s]) {
        if s !in bad { ReachedHere(b', o, a, s); }
        ghost var i := ScribbleRecoverable(b', o, a, s, s in bad);
        RestoreIff(b', o, s, s in bad, crc, c0[s], c1[s]);
        OthersReadable(bad, a, s);
        ok, b', sum := RestoreData(b', s, par, s in bad, bad - {s} != {}, crc, c0[s], c1[s]);
      }
      if d0[s] != d1[s] {
        if d0[s] != sum { d0 := d0[s := sum]; }
        if d1[s] != sum { d1 := d1[s := sum]; }
      }
      s := s + 1;
    }
  }

  /** Only the stripe with the damage can be unreadable. */
  lemma OthersReadable(bad: set<nat>, a: nat, s: nat)
    requires (forall t | t in bad :: a == t * STRIPE) && (s in bad || (s * STRIPE < a + STRIPE && a < (s + 1) * STRIPE))
    ensures bad - {s} == {}
  {
    forall t | t in bad ensures t == s {}
  }

  lemma MendedFirst(b: seq<Byte>, o: seq<Byte>, a: nat, s: nat)
    requires s < STRIPES && Scribbled(b, o, a, s)
    ensures Mended(b, o, s) == b
  {
  }

  lemma MendedNext(b: seq<Byte>, o: seq<Byte>, s: nat)
    requires |b| == BLOCK && |o| == BLOCK && s < STRIPES
    ensures s + 1 < STRIPES ==> WithStripe(Mended(b, o, s), s, Stripe(o, s)) == Mended(b, o, s + 1)
    ensures Stripe(Mended(b, o, s), s) == Stripe(o, s) ==>
              WithStripe(Mended(b, o, s), s, Stripe(o, s)) == Mended(b, o, s)
  {
    Splice(b, o, s * STRIPE, s * STRIPE + STRIPE);
    assert (s + 1) * STRIPE == s * STRIPE + STRIPE;
  }

  lemma Splice(b: seq<Byte>, o: seq<Byte>, k: nat, n: nat)
    requires |b| == |o| && k <= n <= |o|
    ensures var m := o[..k] + b[k..];
            && m[..k] + o[k..n] + m[n..] == o[..n] + b[n..]
            && (m[k..n] == o[k..n] ==> m[..k] + o[k..n] + m[n..] == m)
  {
    var m := o[..k] + b[k..];
    assert m[..k] == o[..k] && m[n..] == b[n..] && o[..k] + o[k..n] == o[..n];
    assert m[..k] + m[k..n] + m[n..] == m;
  }

  /** Starting one stripe late fails: with the last byte of an earlier stripe damaged, and no
      other stripe's last byte, no candidate for the stripe is right, since the last byte is
      always reconstructed. */
  lemma TooLate(b: seq<Byte>, o: seq<Byte>, s: nat, t: nat, i: nat, last: nat)
    requires |b| == BLOCK && |o| == BLOCK && s < STRIPES && t < STRIPES && s != t && Tried(s, false, i)
    requires last == STRIPE - 1
    requires At(b, t, last) != At(o, t, last)
    requires forall u | 0 <= u < STRIPES && u != s && u != t :: At(b, u, last) == At(o, u, last)
    ensures !Recoverable(b, o, s, i)
  {
    OneDelta(b, o, s, t, last);
  }

  /** Damage in exactly one other stripe does not cancel. */
  lemma OneDelta(b: seq<Byte>, o: seq<Byte>, s: nat, t: nat, i: nat)
    requires |b| == BLOCK && |o| == BLOCK && s < STRIPES && t < STRIPES && s != t && i < STRIPE
    requires At(b, t, i) != At(o, t, i) && forall u | 0 <= u < STRIPES && u != s && u != t :: At(b, u, i) == At(o, u, i)
    ensures Delta(b, o, s, i) != 0
  {
    var m := WithStripe(b, t, Stripe(o, t));
    forall u | 0 <= u < STRIPES && u != s ensures At(m, u, i) == At(o, u, i) { WithStripeAt(b, t, Stripe(o, t), u, i); }
    WithStripeAt(b, t, Stripe(o, t), s, i);
    NoDelta(m, o, s, i);
    XorWith(b, t, Stripe(o, t), i, STRIPES);
    hide At, Xor, WithStripe, X;
    Differs(Xor(b, i, STRIPES), At(b, t, i), At(o, t, i), At(b, s, i), X(Xor(o, i, STRIPES), At(o, s, i)));
  }

  lemma Differs(x: Byte, a: Byte, c: Byte, m: Byte, y: Byte)
    requires a != c && X(X(X(X(x, a), c), m), y) == 0
    ensures X(X(x, m), y) != 0
  {
  }
}
